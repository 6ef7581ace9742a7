/** One row of the transactional outbox: its columns, the row constraints and update guard the
    database enforces, and the seven row updates the worker and the operator perform.
    Instants and durations are whole microseconds. */
module OutboxRow {
  import opened Prelude

  type OutboxId = nat
  type Token = nat

  datatype Status = Pending | Processing | Delivered | Failed

  datatype ErrorCode =
    | AdapterUnexpectedError
    | AttemptsExhausted
    | DestinationDisabled
    | DestinationUnconfigured
    | LeaseExpired
    | PayloadInvalid
    | PermanentDeliveryError
    | RetryableDeliveryError
    | TelegramProtocolError
    | TelegramRuntimeCopyInvalid
    | TelegramRuntimeCopyUnavailable
    | TelegramStagingFileInvalid
    | TelegramStagingFileMissing

  // The columns that the update guard declares immutable.
  datatype Envelope = Envelope(
    notificationType: string, incidentId: nat, destinationId: nat, schemaVersion: nat,
    payload: string, idempotencyKey: string, createdAt: int)

  datatype Row = Row(
    envelope: Envelope,
    status: Status,
    attemptCount: int,
    maxAttempts: int,
    nextAttemptAt: Option<int>,
    claimToken: Option<Token>,
    claimedAt: Option<int>,
    leaseExpiresAt: Option<int>,
    deliveredAt: Option<int>,
    failedAt: Option<int>,
    lastErrorCode: Option<ErrorCode>)

  const MAX_ATTEMPTS: int := 20

  // ---------------------------------------------------------------- database predicates

  // The state-shape CHECK constraint.
  predicate StateShape(r: Row) {
    match r.status
    case Pending =>
      && r.claimToken.None? && r.claimedAt.None? && r.leaseExpiresAt.None?
      && r.nextAttemptAt.Some? && r.deliveredAt.None? && r.failedAt.None?
    case Processing =>
      && r.claimToken.Some? && r.claimedAt.Some? && r.leaseExpiresAt.Some?
      && r.nextAttemptAt.None? && r.deliveredAt.None? && r.failedAt.None?
    case Delivered =>
      && r.claimToken.None? && r.claimedAt.None? && r.leaseExpiresAt.None?
      && r.nextAttemptAt.None? && r.deliveredAt.Some? && r.failedAt.None? && r.lastErrorCode.None?
    case Failed =>
      && r.claimToken.None? && r.claimedAt.None? && r.leaseExpiresAt.None?
      && r.nextAttemptAt.None? && r.deliveredAt.None? && r.failedAt.Some? && r.lastErrorCode.Some?
  }

  // All CHECK constraints on the lifecycle columns.
  predicate Checks(r: Row) {
    && StateShape(r)
    && 0 <= r.attemptCount <= r.maxAttempts
    && 1 <= r.maxAttempts <= MAX_ATTEMPTS
    && (r.claimToken.Some? ==>
          r.leaseExpiresAt.Some? && r.claimedAt.Some? && r.leaseExpiresAt.value > r.claimedAt.value)
  }

  // What the constraints do not say but every reachable row satisfies: a pending row can still be
  // claimed, and a row that left pending has been tried at least once.
  predicate Healthy(r: Row) {
    && Checks(r)
    && (r.status == Pending ==> r.attemptCount < r.maxAttempts)
    && (r.status != Pending ==> 1 <= r.attemptCount)
  }

  // The BEFORE UPDATE trigger accepts this update.
  predicate GuardAllows(before: Row, after: Row) {
    && before.envelope == after.envelope
    && (before.status != after.status ==>
          || (before.status == Pending && after.status == Processing)
          || (before.status == Processing && after.status in {Pending, Delivered, Failed})
          || (before.status == Failed && after.status == Pending))
  }

  // ---------------------------------------------------------------- row updates

  function NewRow(envelope: Envelope, maxAttempts: int, at: int): Row {
    Row(envelope, Pending, 0, maxAttempts, Some(at), None, None, None, None, None, None)
  }

  predicate Due(r: Row, now: int) {
    r.status == Pending && r.nextAttemptAt.Some? && r.nextAttemptAt.value <= now
    && r.attemptCount < r.maxAttempts
  }

  predicate OwnedBy(r: Row, token: Token) {
    r.status == Processing && r.claimToken == Some(token)
  }

  predicate Expired(r: Row, now: int) {
    r.status == Processing && r.leaseExpiresAt.Some? && r.leaseExpiresAt.value <= now
  }

  predicate Exhausted(r: Row) {
    r.attemptCount >= r.maxAttempts
  }

  function Claimed(r: Row, token: Token, now: int, lease: int): Row {
    r.(status := Processing, attemptCount := r.attemptCount + 1, nextAttemptAt := None,
       claimToken := Some(token), claimedAt := Some(now), leaseExpiresAt := Some(now + lease))
  }

  function Released(r: Row): Row {
    r.(claimToken := None, claimedAt := None, leaseExpiresAt := None)
  }

  function FailedRow(r: Row, now: int, code: ErrorCode): Row {
    Released(r).(status := Failed, nextAttemptAt := None, failedAt := Some(now), lastErrorCode := Some(code))
  }

  function Acknowledged(r: Row, now: int): Row {
    Released(r).(status := Delivered, nextAttemptAt := None, deliveredAt := Some(now), failedAt := None,
                 lastErrorCode := None)
  }

  // Shared by rescheduling and lease recovery: back to pending at `retryAt`, unless exhausted.
  function RetriedOrFailed(r: Row, now: int, retryAt: int, code: ErrorCode): Row {
    if Exhausted(r) then
      Released(r).(status := Failed, nextAttemptAt := None, failedAt := Some(now),
                   lastErrorCode := Some(AttemptsExhausted))
    else
      Released(r).(status := Pending, nextAttemptAt := Some(retryAt), failedAt := None,
                   lastErrorCode := Some(code))
  }

  function Rescheduled(r: Row, now: int, delay: int, code: ErrorCode): Row {
    RetriedOrFailed(r, now, now + delay, code)
  }

  function Recovered(r: Row, now: int): Row {
    RetriedOrFailed(r, now, now, LeaseExpired)
  }

  function Requeued(r: Row, extra: int, now: int): Row {
    Released(r).(status := Pending, maxAttempts := r.maxAttempts + extra, nextAttemptAt := Some(now),
                 deliveredAt := None, failedAt := None, lastErrorCode := None)
  }

  // ---------------------------------------------------------------- termination measure

  function Potential(r: Row): int {
    2 * (MAX_ATTEMPTS - r.attemptCount) + (MAX_ATTEMPTS - r.maxAttempts)
    + (if r.status == Processing then 1 else 0)
  }

  // ---------------------------------------------------------------- what one update may do

  // The constraints column by column: each lifecycle column is filled in exactly the statuses it belongs to.
  lemma ChecksMean(r: Row)
    ensures Checks(r) <==>
            && (r.claimToken.Some? <==> r.status == Processing) && (r.claimedAt.Some? <==> r.status == Processing)
            && (r.leaseExpiresAt.Some? <==> r.status == Processing) && (r.nextAttemptAt.Some? <==> r.status == Pending)
            && (r.deliveredAt.Some? <==> r.status == Delivered) && (r.failedAt.Some? <==> r.status == Failed)
            && (r.status == Delivered ==> r.lastErrorCode == None) && (r.status == Failed ==> r.lastErrorCode.Some?)
            && 0 <= r.attemptCount && r.attemptCount <= r.maxAttempts && 1 <= r.maxAttempts && r.maxAttempts <= 20
            && (r.status == Processing ==> r.claimedAt.value < r.leaseExpiresAt.value)
  {
  }

  // The trigger lets a status change in five ways and the envelope not at all.
  lemma GuardMeans(before: Row, after: Row)
    ensures GuardAllows(before, after) <==>
            && after.envelope == before.envelope
            && (before.status == after.status
                || (before.status, after.status) in {(Pending, Processing), (Processing, Pending),
                                                     (Processing, Delivered), (Processing, Failed), (Failed, Pending)})
  {
  }

  // A flushed update keeps the row healthy, passes the update guard, changes the status, and uses
  // up potential.
  predicate LegalMove(before: Row, after: Row) {
    && Healthy(after)
    && GuardAllows(before, after)
    && before.status != after.status
    && 0 <= Potential(after) < Potential(before)
  }

  lemma EnqueueIsHealthy(envelope: Envelope, maxAttempts: int, at: int)
    requires 1 <= maxAttempts <= MAX_ATTEMPTS
    ensures var r := NewRow(envelope, maxAttempts, at);
            Healthy(r) && 0 <= Potential(r) <= 59 && forall t :: Due(r, t) <==> at <= t
  {
  }

  // A claim takes one attempt and holds the row exactly until the lease runs out.
  lemma ClaimMove(r: Row, token: Token, now: int, lease: int)
    requires Healthy(r) && Due(r, now) && lease > 0
    ensures var c := Claimed(r, token, now, lease);
            && LegalMove(r, c)
            && c.attemptCount == r.attemptCount + 1
            && (forall t: Token :: OwnedBy(c, t) <==> t == token)
            && (forall t :: Expired(c, t) <==> now + lease <= t)
            && (forall t :: !Due(c, t))
  {
  }

  // A claim and the failure flushed after it in the same transaction are two legal moves.
  lemma ClaimThenFailMoves(r: Row, token: Token, now: int, lease: int, code: ErrorCode)
    requires Healthy(r) && Due(r, now) && lease > 0
    ensures var c := Claimed(r, token, now, lease); var f := FailedRow(c, now, code);
            && LegalMove(r, c) && LegalMove(c, f)
            && Potential(f) <= Potential(r) - 2
            && f.status == Failed && f.lastErrorCode == Some(code) && f.failedAt == Some(now)
            && f.attemptCount == r.attemptCount + 1
  {
  }

  // Every way out of `processing` is a legal move that gives up the token, so nobody owns the row.
  lemma CompletionMoves(r: Row, now: int, delay: int, code: ErrorCode)
    requires Healthy(r) && r.status == Processing
    ensures LegalMove(r, Acknowledged(r, now)) && Acknowledged(r, now).deliveredAt == Some(now)
    ensures LegalMove(r, FailedRow(r, now, code)) && FailedRow(r, now, code).lastErrorCode == Some(code)
    ensures LegalMove(r, Rescheduled(r, now, delay, code))
    ensures LegalMove(r, Recovered(r, now))
    ensures forall t: Token :: !OwnedBy(Acknowledged(r, now), t) && !OwnedBy(FailedRow(r, now, code), t)
                               && !OwnedBy(Rescheduled(r, now, delay, code), t) && !OwnedBy(Recovered(r, now), t)
  {
  }

  // A retry is due exactly from its delay on; a row out of attempts fails instead and says so.
  lemma RetryMeaning(r: Row, now: int, delay: int, code: ErrorCode, t: int)
    requires Healthy(r) && r.status == Processing
    ensures Due(Rescheduled(r, now, delay, code), t) <==> r.attemptCount < r.maxAttempts && now + delay <= t
    ensures Due(Recovered(r, now), t) <==> r.attemptCount < r.maxAttempts && now <= t
    ensures Rescheduled(r, now, delay, code).status == Failed <==> r.attemptCount == r.maxAttempts
    ensures Rescheduled(r, now, delay, code).lastErrorCode
            == Some(if r.attemptCount == r.maxAttempts then AttemptsExhausted else code)
    ensures Recovered(r, now).lastErrorCode
            == Some(if r.attemptCount == r.maxAttempts then AttemptsExhausted else LeaseExpired)
  {
  }

  // A requeue never resets the attempt counter: it grants exactly `extra` more attempts on top of
  // those left, and the row can be claimed at once.
  lemma RequeueMove(r: Row, extra: int, now: int, t: int)
    requires Healthy(r) && r.status == Failed && 1 <= extra && r.maxAttempts + extra <= MAX_ATTEMPTS
    ensures LegalMove(r, Requeued(r, extra, now))
    ensures Due(Requeued(r, extra, now), t) <==> now <= t
    ensures Requeued(r, extra, now).attemptCount == r.attemptCount
    ensures Requeued(r, extra, now).maxAttempts - r.maxAttempts == extra
    ensures Requeued(r, extra, now).lastErrorCode.None?
  {
  }
}
