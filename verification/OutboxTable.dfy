/** The outbox table as the worker's transactions update it in place. */
module OutboxTable {
  import opened Prelude
  import opened OutboxRow
  import opened OutboxRuns

  // `configuration` is None when the adapter kind has no loader, and otherwise tells whether the
  // loader found one.
  datatype Destination = Destination(enabled: bool, configuration: Option<bool>)

  datatype ClaimResult = Nothing | FailedAtOnce(id: OutboxId, code: ErrorCode) | Claimed(claim: Claim)

  datatype RequeueError = ConfirmationMismatch | BadExtraAttempts | NotAvailable | WouldExceedLimit

  datatype RequeueResult = Requeued(row: Row) | RequeueRefused(error: RequeueError)

  // The reason to fail a row in the transaction that claims it.
  function Verdict(d: Destination, payloadValid: bool): Option<ErrorCode> {
    if !d.enabled then Some(DestinationDisabled)
    else if !payloadValid then Some(PayloadInvalid)
    else if d.configuration == Some(false) then Some(DestinationUnconfigured)
    else None
  }

  // A row the claim query may return: due, not locked by another transaction, with a destination.
  predicate Candidate(rows: map<OutboxId, Row>, destinations: map<nat, Destination>, locked: set<OutboxId>,
                      now: int, id: OutboxId) {
    && id in rows && id !in locked && Due(rows[id], now) && rows[id].envelope.destinationId in destinations
  }

  // The ORDER BY of the claim query.
  predicate Before(rows: map<OutboxId, Row>, a: OutboxId, b: OutboxId)
    requires a in rows && rows[a].nextAttemptAt.Some? && b in rows && rows[b].nextAttemptAt.Some?
  {
    var x, y := rows[a], rows[b];
    || x.nextAttemptAt.value < y.nextAttemptAt.value
    || (x.nextAttemptAt == y.nextAttemptAt
        && (x.envelope.createdAt < y.envelope.createdAt
            || (x.envelope.createdAt == y.envelope.createdAt && a < b)))
  }

  ghost predicate FirstCandidate(rows: map<OutboxId, Row>, destinations: map<nat, Destination>,
                                 locked: set<OutboxId>, now: int, id: OutboxId) {
    && Candidate(rows, destinations, locked, now, id)
    && forall other :: Candidate(rows, destinations, locked, now, other) && other != id ==> Before(rows, id, other)
  }

  // What the claim transaction does: nothing if there is no candidate; otherwise it claims the first one
  // in queue order, and fails it at once if the verdict says so.
  ghost predicate ClaimEffect(
    rows: map<OutboxId, Row>, destinations: map<nat, Destination>, locked: set<OutboxId>, payloadValid: string -> bool,
    token: Token, now: int, lease: int, result: ClaimResult, rows': map<OutboxId, Row>)
  {
    match result
    case Nothing => rows' == rows && forall id :: !Candidate(rows, destinations, locked, now, id)
    case FailedAtOnce(id, code) =>
      && FirstCandidate(rows, destinations, locked, now, id)
      && var r := rows[id];
         && Verdict(destinations[r.envelope.destinationId], payloadValid(r.envelope.payload)) == Some(code)
         && rows' == rows[id := FailedRow(OutboxRow.Claimed(r, token, now, lease), now, code)]
    case Claimed(claim) =>
      && FirstCandidate(rows, destinations, locked, now, claim.id)
      && var r := rows[claim.id];
         && Verdict(destinations[r.envelope.destinationId], payloadValid(r.envelope.payload)) == None
         && claim == Claim(claim.id, token, r.attemptCount + 1, now + lease)
         && rows' == rows[claim.id := OutboxRow.Claimed(r, token, now, lease)]
  }

  // ---------------------------------------------------------------- what the transactions mean, column by column

  // The row can be claimed: pending, due, with attempts left, free, and with a known destination.
  predicate Claimable(r: Row, free: bool, known: bool, now: int) {
    && free && known && r.status == Pending && r.attemptCount < r.maxAttempts
    && r.nextAttemptAt.Some? && r.nextAttemptAt.value <= now
  }

  // Rows due earlier come first, then rows created earlier, then smaller ids.
  predicate NotLater(x: Row, xid: OutboxId, y: Row, yid: OutboxId)
    requires x.nextAttemptAt.Some? && y.nextAttemptAt.Some?
  {
    var (dx, dy) := (x.nextAttemptAt.value, y.nextAttemptAt.value);
    var (cx, cy) := (x.envelope.createdAt, y.envelope.createdAt);
    && dx <= dy
    && (dx == dy ==> cx <= cy)
    && (dx == dy && cx == cy ==> xid <= yid)
  }

  // The claimed row: one more attempt, held by the token until the lease runs out.
  predicate IsHeld(r: Row, r': Row, token: Token, now: int, lease: int) {
    && r'.envelope == r.envelope && r'.status == Processing && r'.maxAttempts == r.maxAttempts
    && r'.attemptCount == r.attemptCount + 1 && r'.claimToken == Some(token) && r'.claimedAt == Some(now)
    && r'.leaseExpiresAt == Some(now + lease) && r'.nextAttemptAt == None
    && r'.deliveredAt == r.deliveredAt && r'.failedAt == r.failedAt && r'.lastErrorCode == r.lastErrorCode
  }

  predicate KeepsAttempts(r: Row, r': Row) {
    r'.envelope == r.envelope && r'.attemptCount == r.attemptCount && r'.maxAttempts == r.maxAttempts
  }

  predicate IsReleased(r: Row) {
    r.claimToken == None && r.claimedAt == None && r.leaseExpiresAt == None
  }

  predicate IsDelivered(r: Row, r': Row, now: int) {
    && KeepsAttempts(r, r') && IsReleased(r') && r'.status == Delivered && r'.deliveredAt == Some(now)
    && r'.nextAttemptAt == None && r'.failedAt == None && r'.lastErrorCode == None
  }

  predicate IsFailed(r: Row, r': Row, code: ErrorCode, now: int) {
    && KeepsAttempts(r, r') && IsReleased(r') && r'.status == Failed && r'.failedAt == Some(now)
    && r'.nextAttemptAt == None && r'.lastErrorCode == Some(code) && r'.deliveredAt == r.deliveredAt
  }

  // Back to pending, due from `from` on and not before, while there are attempts left; failed otherwise.
  ghost predicate IsRetried(r: Row, r': Row, code: ErrorCode, from: int, now: int) {
    if r.attemptCount >= r.maxAttempts then IsFailed(r, r', AttemptsExhausted, now)
    else
      && KeepsAttempts(r, r') && IsReleased(r') && r'.status == Pending && r'.nextAttemptAt == Some(from)
      && r'.failedAt == None && r'.lastErrorCode == Some(code) && r'.deliveredAt == r.deliveredAt
      && forall t :: Claimable(r', true, true, t) <==> from <= t
  }

  // What an adapter's reply makes of the row that the claim still owns.
  ghost predicate ReplyMeans(reply: Reply, r: Row, r': Row, delay: int, now: int) {
    match reply
    case NoSuchAdapter => IsFailed(r, r', DestinationUnconfigured, now)
    case RaisedRetryable => IsRetried(r, r', RetryableDeliveryError, now + delay, now)
    case RaisedOther => IsRetried(r, r', AdapterUnexpectedError, now + delay, now)
    case NotAResult => IsRetried(r, r', AdapterUnexpectedError, now + delay, now)
    case Result(DispositionDelivered, _) => IsDelivered(r, r', now)
    case Result(_, None) => IsRetried(r, r', AdapterUnexpectedError, now + delay, now)
    case Result(DispositionPermanent, Some(code)) => IsFailed(r, r', code, now)
    case Result(DispositionRetryable, Some(code)) => IsRetried(r, r', code, now + delay, now)
  }

  function MovedTo(rows: map<OutboxId, Row>, rows': map<OutboxId, Row>, status: Status): set<OutboxId> {
    set id | id in rows && id in rows' && rows[id] != rows'[id] && rows'[id].status == status
  }

  // Free rows of known destinations that can be claimed.
  predicate CanClaim(
    rows: map<OutboxId, Row>, destinations: map<nat, Destination>, locked: set<OutboxId>, now: int, id: OutboxId)
  {
    id in rows && Claimable(rows[id], id !in locked, rows[id].envelope.destinationId in destinations, now)
  }

  lemma CandidatesCanBeClaimed(
    rows: map<OutboxId, Row>, destinations: map<nat, Destination>, locked: set<OutboxId>, now: int)
    ensures forall id :: CanClaim(rows, destinations, locked, now, id)
                         <==> Candidate(rows, destinations, locked, now, id)
  {
  }

  lemma FirstIsNotLater(
    rows: map<OutboxId, Row>, destinations: map<nat, Destination>, locked: set<OutboxId>, now: int, id: OutboxId)
    requires FirstCandidate(rows, destinations, locked, now, id)
    ensures CanClaim(rows, destinations, locked, now, id)
    ensures forall other | CanClaim(rows, destinations, locked, now, other) ::
              NotLater(rows[id], id, rows[other], other)
  {
    CandidatesCanBeClaimed(rows, destinations, locked, now);
    forall other | CanClaim(rows, destinations, locked, now, other)
      ensures NotLater(rows[id], id, rows[other], other)
    {
      assert Candidate(rows, destinations, locked, now, other);
    }
  }

  lemma ReplyIsMeant(reply: Reply, r: Row, delay: int, now: int)
    ensures ReplyMeans(reply, r, CompletedRow(r, OutcomeOf(reply, delay), now), delay, now)
  {
  }

  // The claim query has one answer: of two first candidates each would come before the other.
  lemma ClaimIsDetermined(
    rows: map<OutboxId, Row>, destinations: map<nat, Destination>, locked: set<OutboxId>, payloadValid: string -> bool,
    token: Token, now: int, lease: int,
    a: ClaimResult, rowsA: map<OutboxId, Row>, b: ClaimResult, rowsB: map<OutboxId, Row>)
    requires ClaimEffect(rows, destinations, locked, payloadValid, token, now, lease, a, rowsA)
    requires ClaimEffect(rows, destinations, locked, payloadValid, token, now, lease, b, rowsB)
    ensures a == b && rowsA == rowsB
  {
  }

  // A claim on the table is one event of the runs, enabled there with a fresh token.
  lemma ClaimIsAnEvent(
    s: System, w: OutboxRuns.Worker, destinations: map<nat, Destination>, locked: set<OutboxId>,
    payloadValid: string -> bool, token: Token, now: int, lease: int, result: ClaimResult, rows': map<OutboxId, Row>)
    requires ClaimEffect(s.rows, destinations, locked, payloadValid, token, now, lease, result, rows')
    requires w !in s.busy && token !in s.issued && now <= s.now && lease > 0
    ensures match result
            case Nothing => rows' == s.rows
            case FailedAtOnce(id, code) =>
              var e := ClaimAndFail(id, token, now, lease, code); Enabled(s, e) && rows' == Apply(s, e).rows
            case Claimed(claim) =>
              var e := ClaimNext(w, claim.id, token, now, lease);
              Enabled(s, e) && rows' == Apply(s, e).rows && Apply(s, e).busy[w].claim == claim
  {
  }

  function ExpiredIn(rows: map<OutboxId, Row>, now: int, exhausted: bool): set<OutboxId> {
    set id | id in rows && Expired(rows[id], now) && Exhausted(rows[id]) == exhausted
  }

  lemma OneLess(s: set<OutboxId>, todo: set<OutboxId>, id: OutboxId)
    requires id in todo
    ensures |s - (todo - {id})| == |s - todo| + (if id in s then 1 else 0)
  {
    assert s - (todo - {id}) == (s - todo) + (if id in s then {id} else {});
  }

  class Table {
    var rows: map<OutboxId, Row>

    constructor ()
      ensures rows == map[]
    {
      rows := map[];
    }

    method FindFirst(destinations: map<nat, Destination>, locked: set<OutboxId>, now: int)
      returns (best: Option<OutboxId>)
      ensures best.None? ==> forall id :: !Candidate(rows, destinations, locked, now, id)
      ensures best.Some? ==> FirstCandidate(rows, destinations, locked, now, best.value)
    {
      best := None;
      var todo := rows.Keys;
      while todo != {}
        invariant todo <= rows.Keys
        invariant best.None? ==> forall id :: id in rows.Keys - todo ==> !Candidate(rows, destinations, locked, now, id)
        invariant best.Some? ==>
            && Candidate(rows, destinations, locked, now, best.value)
            && forall other | other in rows.Keys - todo && other != best.value
                              && Candidate(rows, destinations, locked, now, other) :: Before(rows, best.value, other)
        decreases |todo|
      {
        var id :| id in todo;
        todo := todo - {id};
        if Candidate(rows, destinations, locked, now, id) && (best.None? || Before(rows, id, best.value)) {
          best := Some(id);
        }
      }
    }

    method ClaimNextMessage(destinations: map<nat, Destination>, locked: set<OutboxId>, payloadValid: string -> bool,
                            token: Token, now: int, lease: int)
      returns (result: ClaimResult)
      modifies this`rows
      ensures ClaimEffect(old(rows), destinations, locked, payloadValid, token, now, lease, result, rows)
      ensures result.Nothing? <==> forall id :: !CanClaim(old(rows), destinations, locked, now, id)
      ensures !result.Nothing? ==>
                var id := if result.Claimed? then result.claim.id else result.id;
                && CanClaim(old(rows), destinations, locked, now, id)
                && id in rows
                && var (r, d) := (old(rows)[id], old(rows)[id].envelope.destinationId);
                   && (forall other | CanClaim(old(rows), destinations, locked, now, other) ::
                         NotLater(r, id, old(rows)[other], other))
                   && rows == old(rows)[id := rows[id]]
                   && (result.Claimed? <==>
                         && destinations[d].enabled && payloadValid(r.envelope.payload)
                         && destinations[d].configuration != Some(false))
                   && (result.Claimed? ==>
                         && IsHeld(r, rows[id], token, now, lease) && result.claim.token == token
                         && result.claim.attempt == r.attemptCount + 1 && result.claim.leaseExpiresAt == now + lease)
                   && (result.FailedAtOnce? ==>
                         && IsFailed(r.(attemptCount := r.attemptCount + 1), rows[id], result.code, now)
                         && (result.code == DestinationDisabled <==> !destinations[d].enabled)
                         && (result.code == PayloadInvalid <==>
                               destinations[d].enabled && !payloadValid(r.envelope.payload))
                         && (result.code == DestinationUnconfigured <==>
                               && destinations[d].enabled && payloadValid(r.envelope.payload)
                               && destinations[d].configuration == Some(false)))
    {
      CandidatesCanBeClaimed(rows, destinations, locked, now);
      var best := FindFirst(destinations, locked, now);
      if best.None? {
        return Nothing;
      }
      var id := best.value;
      FirstIsNotLater(rows, destinations, locked, now, id);
      var message := rows[id];
      message := message.(status := Processing, attemptCount := message.attemptCount + 1, nextAttemptAt := None,
                          claimToken := Some(token), claimedAt := Some(now), leaseExpiresAt := Some(now + lease));
      rows := rows[id := message];
      var verdict := Verdict(destinations[message.envelope.destinationId], payloadValid(message.envelope.payload));
      if verdict.Some? {
        rows := rows[id := FailedRow(message, now, verdict.value)];
        return FailedAtOnce(id, verdict.value);
      }
      return ClaimResult.Claimed(Claim(id, token, message.attemptCount, now + lease));
    }

    // The three completions share one fence; `report` is None when the lease was lost.
    method CompleteClaim(c: Claim, outcome: Outcome, now: int) returns (report: Option<Status>)
      modifies this`rows
      ensures rows == CompletedRows(old(rows), c, outcome, now)
      ensures report == CompletionReport(old(rows), c, outcome, now)
      ensures if c.id in old(rows) && old(rows)[c.id].status == Processing
                 && old(rows)[c.id].claimToken == Some(c.token)
              then
                && rows.Keys == old(rows).Keys && report == Some(rows[c.id].status)
                && (forall other :: other in old(rows) && other != c.id ==> rows[other] == old(rows)[other])
                && match outcome
                   case Deliver => IsDelivered(old(rows)[c.id], rows[c.id], now)
                   case Retry(delay, code) => IsRetried(old(rows)[c.id], rows[c.id], code, now + delay, now)
                   case Reject(code) => IsFailed(old(rows)[c.id], rows[c.id], code, now)
              else rows == old(rows) && report == None
    {
      if c.id !in rows || rows[c.id].status != Processing || rows[c.id].claimToken != Some(c.token) {
        return None;
      }
      var r := rows[c.id];
      match outcome {
        case Deliver =>
          r := r.(status := Delivered, claimToken := None, claimedAt := None, leaseExpiresAt := None,
                  nextAttemptAt := None, deliveredAt := Some(now), failedAt := None, lastErrorCode := None);
        case Retry(delay, code) =>
          var exhausted := r.attemptCount >= r.maxAttempts;
          r := r.(status := if exhausted then Failed else Pending,
                  claimToken := None, claimedAt := None, leaseExpiresAt := None,
                  nextAttemptAt := if exhausted then None else Some(now + delay),
                  failedAt := if exhausted then Some(now) else None,
                  lastErrorCode := Some(if exhausted then AttemptsExhausted else code));
        case Reject(code) =>
          r := r.(status := Failed, claimToken := None, claimedAt := None, leaseExpiresAt := None,
                  nextAttemptAt := None, failedAt := Some(now), lastErrorCode := Some(code));
      }
      rows := rows[c.id := r];
      report := Some(r.status);
    }

    // Recovers every expired lease and counts the rows by the status they got.
    method RecoverExpiredClaims(now: int) returns (pending: nat, failed: nat)
      modifies this`rows
      ensures rows == RecoveredRows(old(rows), now)
      ensures pending == |ExpiredIn(old(rows), now, false)| && failed == |ExpiredIn(old(rows), now, true)|
      ensures rows.Keys == old(rows).Keys
      ensures forall id :: id in old(rows) ==>
                var r := old(rows)[id];
                if r.status == Processing && r.leaseExpiresAt.Some? && r.leaseExpiresAt.value <= now
                then IsRetried(r, rows[id], LeaseExpired, now, now) else rows[id] == r
      ensures pending == |MovedTo(old(rows), rows, Pending)| && failed == |MovedTo(old(rows), rows, Failed)|
    {
      var before := rows;
      var todo := set id | id in before && Expired(before[id], now);
      rows := map id | id in before :: if id in todo then Recovered(before[id], now) else before[id];
      pending, failed := CountStatuses(todo);
      assert ExpiredIn(before, now, false) == WithStatus(todo, Pending);
      assert ExpiredIn(before, now, true) == WithStatus(todo, Failed);
      assert WithStatus(todo, Pending) == MovedTo(before, rows, Pending);
      assert WithStatus(todo, Failed) == MovedTo(before, rows, Failed);
    }

    ghost function WithStatus(ids: set<OutboxId>, status: Status): set<OutboxId>
      requires ids <= rows.Keys
      reads this
    {
      set id | id in ids && rows[id].status == status
    }

    // Counts the statuses that a bulk update returned.
    method CountStatuses(ids: set<OutboxId>) returns (pending: nat, failed: nat)
      requires ids <= rows.Keys
      ensures pending == |WithStatus(ids, Pending)| && failed == |WithStatus(ids, Failed)|
    {
      ghost var toPending, toFailed := WithStatus(ids, Pending), WithStatus(ids, Failed);
      pending, failed := 0, 0;
      var todo := ids;
      assert toPending - todo == {} && toFailed - todo == {};
      while todo != {}
        invariant todo <= ids
        invariant pending == |toPending - todo| && failed == |toFailed - todo|
        decreases |todo|
      {
        var id :| id in todo;
        OneLess(toPending, todo, id);
        OneLess(toFailed, todo, id);
        todo := todo - {id};
        if rows[id].status == Pending {
          pending := pending + 1;
        } else if rows[id].status == Failed {
          failed := failed + 1;
        }
      }
      assert toPending - {} == toPending && toFailed - {} == toFailed;
    }

    method RequeueFailedMessage(id: OutboxId, confirmation: OutboxId, extra: int, now: int)
      returns (result: RequeueResult)
      modifies this`rows
      ensures result.Requeued? <==>
                && confirmation == id && 1 <= extra <= 5
                && id in old(rows) && old(rows)[id].status == Failed
                && old(rows)[id].maxAttempts + extra <= MAX_ATTEMPTS
      ensures result.RequeueRefused? ==> rows == old(rows)
      ensures result.Requeued? ==>
          result.row == OutboxRow.Requeued(old(rows)[id], extra, now) && rows == old(rows)[id := result.row]
      ensures result.Requeued? ==>
                var (r, r') := (old(rows)[id], result.row);
                && r'.envelope == r.envelope && r'.attemptCount == r.attemptCount && IsReleased(r')
                && r'.maxAttempts == r.maxAttempts + extra && r'.status == Pending && r'.nextAttemptAt == Some(now)
                && r'.deliveredAt == None && r'.failedAt == None && r'.lastErrorCode == None
      ensures result == RequeueRefused(NotAvailable) <==>
                && confirmation == id && 1 <= extra <= 5
                && (id !in old(rows) || old(rows)[id].status != Failed)
      ensures result == RequeueRefused(ConfirmationMismatch) <==> confirmation != id
      ensures result == RequeueRefused(BadExtraAttempts) <==> confirmation == id && !(1 <= extra <= 5)
    {
      if confirmation != id {
        return RequeueRefused(ConfirmationMismatch);
      }
      if !(1 <= extra <= 5) {
        return RequeueRefused(BadExtraAttempts);
      }
      if id !in rows || rows[id].status != Failed {
        return RequeueRefused(NotAvailable);
      }
      var r := rows[id];
      if r.maxAttempts + extra > MAX_ATTEMPTS {
        return RequeueRefused(WouldExceedLimit);
      }
      r := r.(status := Pending, maxAttempts := r.maxAttempts + extra, nextAttemptAt := Some(now),
              claimToken := None, claimedAt := None, leaseExpiresAt := None, deliveredAt := None,
              failedAt := None, lastErrorCode := None);
      rows := rows[id := r];
      return RequeueResult.Requeued(r);
    }
  }

  // ---------------------------------------------------------------- one run of the worker

  datatype Disposition = DispositionDelivered | DispositionRetryable | DispositionPermanent

  // What an adapter may do: be missing, raise, or return something. A result object may have been
  // tampered with after construction, so its error code is optional for every disposition.
  datatype Reply =
    | NoSuchAdapter
    | RaisedRetryable
    | RaisedOther
    | NotAResult
    | Result(disposition: Disposition, code: Option<ErrorCode>)

  function OutcomeOf(reply: Reply, delay: int): Outcome {
    match reply
    case NoSuchAdapter => Reject(DestinationUnconfigured)
    case RaisedRetryable => Retry(delay, RetryableDeliveryError)
    case RaisedOther => Retry(delay, AdapterUnexpectedError)
    case NotAResult => Retry(delay, AdapterUnexpectedError)
    case Result(disposition, code) =>
      if disposition.DispositionDelivered? then Deliver
      else if code.None? then Retry(delay, AdapterUnexpectedError)
      else if disposition.DispositionPermanent? then Reject(code.value)
      else Retry(delay, code.value)
  }

  // What the environment supplies to one iteration: what the other workers do to the table before the
  // claim and during the adapter call, a fresh token, the clock readings, the rows locked by others, the
  // adapter's reply and the backoff delay.
  datatype Turn = Turn(
    earlier: map<OutboxId, Row> -> map<OutboxId, Row>, token: Token, locked: set<OutboxId>, claimAt: int,
    reply: Reply, delay: int, meanwhile: map<OutboxId, Row> -> map<OutboxId, Row>, completeAt: int)

  // What became of one iteration: the claim, and the final status of the row or None for a lost lease.
  datatype Done = Done(claim: ClaimResult, report: Option<Status>)

  datatype RunResult = RunResult(processed: nat, delivered: nat, deferred: nat, failed: nat, leaseLost: nat)

  function Reporting(log: seq<Done>, x: Option<Status>): set<nat> {
    set k: nat | k < |log| && log[k].report == x
  }

  function Count(log: seq<Done>, x: Option<Status>): nat {
    |Reporting(log, x)|
  }

  function Tally(r: RunResult, report: Option<Status>): RunResult {
    var next := r.(processed := r.processed + 1);
    match report
    case Some(Delivered) => next.(delivered := r.delivered + 1)
    case Some(Pending) => next.(deferred := r.deferred + 1)
    case Some(Failed) => next.(failed := r.failed + 1)
    case _ => next.(leaseLost := r.leaseLost + 1)
  }

  predicate Classifies(r: RunResult, log: seq<Done>) {
    && r.delivered == Count(log, Some(Delivered)) && r.deferred == Count(log, Some(Pending))
    && r.failed == Count(log, Some(Failed)) && r.leaseLost == Count(log, None)
    && r.processed == r.delivered + r.deferred + r.failed + r.leaseLost
  }

  lemma CountAppend(log: seq<Done>, d: Done, x: Option<Status>)
    ensures Count(log + [d], x) == Count(log, x) + (if d.report == x then 1 else 0)
  {
    assert Reporting(log + [d], x) == Reporting(log, x) + (if d.report == x then {|log|} else {});
  }

  function Tallied(log: seq<Done>): RunResult {
    if log == [] then RunResult(0, 0, 0, 0, 0) else Tally(Tallied(log[..|log| - 1]), log[|log| - 1].report)
  }

  lemma TallyNext(log: seq<Done>, d: Done)
    ensures Tallied(log + [d]) == Tally(Tallied(log), d.report)
  {
    assert (log + [d])[..|log|] == log;
  }

  lemma {:induction false} TallyClassifies(log: seq<Done>)
    requires forall k :: 0 <= k < |log| ==> log[k].report != Some(Processing)
    ensures Classifies(Tallied(log), log) && Tallied(log).processed == |log|
  {
    if log != [] {
      var before, d := log[..|log| - 1], log[|log| - 1];
      TallyClassifies(before);
      assert before + [d] == log;
      CountAppend(before, d, Some(Delivered));
      CountAppend(before, d, Some(Pending));
      CountAppend(before, d, Some(Failed));
      CountAppend(before, d, None);
    }
  }

  class Worker {
    const table: Table
    const destinations: map<nat, Destination>
    const payloadValid: string -> bool
    const lease: int

    constructor (table: Table, destinations: map<nat, Destination>, payloadValid: string -> bool, lease: int)
      ensures this.table == table && this.destinations == destinations
      ensures this.payloadValid == payloadValid && this.lease == lease
    {
      this.table, this.destinations, this.payloadValid, this.lease := table, destinations, payloadValid, lease;
    }

    // One iteration: the claim, and unless the row failed at once, the completion that the adapter's
    // reply calls for, on the table as the others left it.
    ghost predicate TurnIs(t: Turn, rows: map<OutboxId, Row>, d: Done, rows': map<OutboxId, Row>)
    {
      exists mid ::
        && ClaimEffect(t.earlier(rows), destinations, t.locked, payloadValid, t.token, t.claimAt, lease, d.claim, mid)
        && Finished(t, mid, d, rows')
    }

    predicate Finished(t: Turn, mid: map<OutboxId, Row>, d: Done, rows': map<OutboxId, Row>) {
      match d.claim
      case Nothing => false
      case FailedAtOnce(_, _) => d.report == Some(Failed) && rows' == mid
      case Claimed(claim) =>
        && rows' == CompletedRows(t.meanwhile(mid), claim, OutcomeOf(t.reply, t.delay), t.completeAt)
        && d.report == CompletionReport(t.meanwhile(mid), claim, OutcomeOf(t.reply, t.delay), t.completeAt)
    }

    // trail[k] is the table that iteration k found, and trail[k+1] the one it left.
    ghost predicate TurnsAre(turns: seq<Turn>, trail: seq<map<OutboxId, Row>>, log: seq<Done>) {
      && |trail| == |log| + 1 && |log| <= |turns|
      && forall k {:trigger log[k]} :: 0 <= k < |log| ==> TurnIs(turns[k], trail[k], log[k], trail[k + 1])
    }

    // Expired claims are recovered first if asked for. `log` records what became of each iteration; the
    // counters classify it completely.
    method RunOnce(limit: nat, recoverAt: Option<int>, turns: seq<Turn>)
      returns (result: RunResult, ghost log: seq<Done>, ghost trail: seq<map<OutboxId, Row>>)
      requires 1 <= limit <= 100
      modifies table`rows
      ensures TurnsAre(turns, trail, log)
      ensures trail[0] == if recoverAt.Some? then RecoveredRows(old(table.rows), recoverAt.value) else old(table.rows)
      ensures result.processed == |log| <= limit && Classifies(result, log)
      ensures if |log| < limit && |log| < |turns| then Stuck(turns[|log|], trail[|log|], table.rows)
              else table.rows == trail[|log|]
    {
      if recoverAt.Some? {
        var _, _ := table.RecoverExpiredClaims(recoverAt.value);
      }
      result, log, trail := TakeTurns(limit, turns);
      TallyClassifies(log);
    }

    method TakeTurns(limit: nat, turns: seq<Turn>)
      returns (result: RunResult, ghost log: seq<Done>, ghost trail: seq<map<OutboxId, Row>>)
      modifies table`rows
      ensures TurnsAre(turns, trail, log) && trail[0] == old(table.rows)
      ensures result == Tallied(log) && |log| <= limit
      ensures forall k :: 0 <= k < |log| ==> log[k].report != Some(Processing)
      ensures if |log| < limit && |log| < |turns| then Stuck(turns[|log|], trail[|log|], table.rows)
              else table.rows == trail[|log|]
    {
      result, log, trail := RunResult(0, 0, 0, 0, 0), [], [table.rows];
      while result.processed < limit && result.processed < |turns|
        invariant result.processed == |log| <= limit && result == Tallied(log)
        invariant TurnsAre(turns, trail, log) && trail[0] == old(table.rows) && trail[|log|] == table.rows
        invariant forall k :: 0 <= k < |log| ==> log[k].report != Some(Processing)
      {
        var done := TakeTurn(turns[result.processed]);
        if done.claim.Nothing? {
          return;
        }
        TurnAppended(turns, trail, log, done, table.rows);
        TallyNext(log, done);
        result := Tally(result, done.report);
        log, trail := log + [done], trail + [table.rows];
      }
    }

    ghost predicate Stuck(t: Turn, rows: map<OutboxId, Row>, rows': map<OutboxId, Row>)
    {
      rows' == t.earlier(rows) && forall id :: !Candidate(rows', destinations, t.locked, t.claimAt, id)
    }

    method TakeTurn(t: Turn) returns (done: Done)
      modifies table`rows
      ensures if done.claim.Nothing? then Stuck(t, old(table.rows), table.rows)
              else TurnIs(t, old(table.rows), done, table.rows) && done.report != Some(Processing)
    {
      table.rows := t.earlier(table.rows);
      var claim := table.ClaimNextMessage(destinations, t.locked, payloadValid, t.token, t.claimAt, lease);
      if claim.Nothing? || claim.FailedAtOnce? {
        return Done(claim, Some(Failed));
      }
      var report := DeliverClaim(claim.claim, t);
      return Done(claim, report);
    }

    // The adapter call runs outside every transaction.
    method DeliverClaim(claim: Claim, t: Turn) returns (report: Option<Status>)
      modifies table`rows
      ensures table.rows
              == CompletedRows(t.meanwhile(old(table.rows)), claim, OutcomeOf(t.reply, t.delay), t.completeAt)
      ensures report == CompletionReport(t.meanwhile(old(table.rows)), claim, OutcomeOf(t.reply, t.delay), t.completeAt)
      ensures report != Some(Processing)
      ensures var rows := t.meanwhile(old(table.rows));
              if claim.id in rows && rows[claim.id].status == Processing
                 && rows[claim.id].claimToken == Some(claim.token)
              then
                && table.rows.Keys == rows.Keys && report == Some(table.rows[claim.id].status)
                && (forall other :: other in rows && other != claim.id ==> table.rows[other] == rows[other])
                && ReplyMeans(t.reply, rows[claim.id], table.rows[claim.id], t.delay, t.completeAt)
              else table.rows == rows && report == None
    {
      table.rows := t.meanwhile(table.rows);
      ghost var rows := table.rows;
      if claim.id in rows {
        ReplyIsMeant(t.reply, rows[claim.id], t.delay, t.completeAt);
      }
      report := table.CompleteClaim(claim, OutcomeOf(t.reply, t.delay), t.completeAt);
    }

    lemma TurnAppended(
      turns: seq<Turn>, trail: seq<map<OutboxId, Row>>, log: seq<Done>, d: Done, rows: map<OutboxId, Row>)
      requires TurnsAre(turns, trail, log) && |log| < |turns| && TurnIs(turns[|log|], trail[|log|], d, rows)
      ensures TurnsAre(turns, trail + [rows], log + [d])
    {
    }
  }
}
