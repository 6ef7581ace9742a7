/** Any number of outbox workers over one table. Each transaction is one atomic event; the adapter
    call starts and ends in events of its own, outside every transaction. A transaction reads the
    shared clock once and may commit later, so its reading `at` is at most the current instant. */
module OutboxRuns {
  import opened Prelude
  import opened OutboxRow

  type Worker = nat

  datatype Claim = Claim(id: OutboxId, token: Token, attempt: int, leaseExpiresAt: int)

  datatype Outcome = Deliver | Retry(delay: int, code: ErrorCode) | Reject(code: ErrorCode)

  datatype Stage = BeforeCall | InCall | AfterCall(outcome: Outcome)

  datatype Busy = Busy(claim: Claim, stage: Stage)

  datatype System = System(now: int, rows: map<OutboxId, Row>, busy: map<Worker, Busy>, issued: set<Token>)

  datatype Event =
    | Enqueue(id: OutboxId, envelope: Envelope, maxAttempts: int, at: int)
    | ClaimNext(w: Worker, id: OutboxId, token: Token, at: int, lease: int)
    | ClaimAndFail(id: OutboxId, token: Token, at: int, lease: int, code: ErrorCode)
    | NoAdapter(w: Worker)
    | StartCall(w: Worker)
    | EndCall(w: Worker, outcome: Outcome)
    | Complete(w: Worker, at: int)
    | Crash(w: Worker)
    | Recover(at: int)
    | Requeue(id: OutboxId, extra: int, at: int)
    | Tick(to: int)

  const EMPTY := System(0, map[], map[], {})

  // ---------------------------------------------------------------- one step

  predicate Enabled(s: System, e: Event) {
    match e
    case Enqueue(id, _, maxAttempts, at) => id !in s.rows && 1 <= maxAttempts <= MAX_ATTEMPTS && at <= s.now
    case ClaimNext(w, id, token, at, lease) =>
      w !in s.busy && id in s.rows && Due(s.rows[id], at) && token !in s.issued && at <= s.now && lease > 0
    case ClaimAndFail(id, token, at, lease, _) =>
      id in s.rows && Due(s.rows[id], at) && token !in s.issued && at <= s.now && lease > 0
    case NoAdapter(w) => w in s.busy && s.busy[w].stage.BeforeCall?
    case StartCall(w) => w in s.busy && s.busy[w].stage.BeforeCall?
    case EndCall(w, _) => w in s.busy && s.busy[w].stage.InCall?
    case Complete(w, at) => w in s.busy && s.busy[w].stage.AfterCall? && at <= s.now
    case Crash(w) => w in s.busy
    case Recover(at) => at <= s.now
    case Requeue(id, extra, at) =>
      id in s.rows && s.rows[id].status == Failed && 1 <= extra <= 5
      && s.rows[id].maxAttempts + extra <= MAX_ATTEMPTS && at <= s.now
    case Tick(to) => s.now <= to
  }

  // The row update of a completion: all three updates are fenced by status and token.
  function CompletedRow(r: Row, outcome: Outcome, at: int): Row {
    match outcome
    case Deliver => Acknowledged(r, at)
    case Retry(delay, code) => Rescheduled(r, at, delay, code)
    case Reject(code) => FailedRow(r, at, code)
  }

  function CompletedRows(rows: map<OutboxId, Row>, c: Claim, outcome: Outcome, at: int): map<OutboxId, Row> {
    if c.id in rows && OwnedBy(rows[c.id], c.token)
    then rows[c.id := CompletedRow(rows[c.id], outcome, at)]
    else rows
  }

  // What the worker is told: the new status of the row, or None for a lost lease.
  function CompletionReport(rows: map<OutboxId, Row>, c: Claim, outcome: Outcome, at: int): Option<Status> {
    if c.id in rows && OwnedBy(rows[c.id], c.token)
    then Some(CompletedRow(rows[c.id], outcome, at).status)
    else None
  }

  function RecoveredRows(rows: map<OutboxId, Row>, at: int): map<OutboxId, Row> {
    map id | id in rows :: if Expired(rows[id], at) then Recovered(rows[id], at) else rows[id]
  }

  function Apply(s: System, e: Event): System
    requires Enabled(s, e)
  {
    match e
    case Enqueue(id, envelope, maxAttempts, at) => s.(rows := s.rows[id := NewRow(envelope, maxAttempts, at)])
    case ClaimNext(w, id, token, at, lease) =>
      var r := Claimed(s.rows[id], token, at, lease);
      s.(rows := s.rows[id := r], issued := s.issued + {token},
         busy := s.busy[w := Busy(Claim(id, token, r.attemptCount, at + lease), BeforeCall)])
    case ClaimAndFail(id, token, at, lease, code) =>
      s.(rows := s.rows[id := FailedRow(Claimed(s.rows[id], token, at, lease), at, code)],
         issued := s.issued + {token})
    case NoAdapter(w) => s.(busy := s.busy[w := s.busy[w].(stage := AfterCall(Reject(DestinationUnconfigured)))])
    case StartCall(w) => s.(busy := s.busy[w := s.busy[w].(stage := InCall)])
    case EndCall(w, outcome) => s.(busy := s.busy[w := s.busy[w].(stage := AfterCall(outcome))])
    case Complete(w, at) =>
      s.(rows := CompletedRows(s.rows, s.busy[w].claim, s.busy[w].stage.outcome, at), busy := s.busy - {w})
    case Crash(w) => s.(busy := s.busy - {w})
    case Recover(at) => s.(rows := RecoveredRows(s.rows, at))
    case Requeue(id, extra, at) => s.(rows := s.rows[id := Requeued(s.rows[id], extra, at)])
    case Tick(to) => s.(now := to)
  }

  // ---------------------------------------------------------------- runs

  ghost predicate StepOk(s: System, e: Event, s': System) {
    Enabled(s, e) && s' == Apply(s, e)
  }

  // `ss` is a run from an empty table, and es[k] is the event that leads from ss[k] to ss[k+1].
  ghost predicate Run(ss: seq<System>, es: seq<Event>) {
    && |ss| == |es| + 1
    && ss[0] == EMPTY
    && forall k {:trigger es[k]} :: 0 <= k < |es| ==> StepOk(ss[k], es[k], ss[k + 1])
  }

  // ---------------------------------------------------------------- invariant

  ghost predicate RowsOk(s: System) {
    && (forall id :: id in s.rows ==> Healthy(s.rows[id]))
    && (forall id :: id in s.rows && s.rows[id].claimToken.Some? ==> s.rows[id].claimToken.value in s.issued)
    && (forall i, j :: i in s.rows && j in s.rows && i != j && s.rows[i].claimToken.Some?
                       ==> s.rows[i].claimToken != s.rows[j].claimToken)
  }

  ghost predicate ClaimsOk(s: System) {
    && (forall w :: w in s.busy ==> s.busy[w].claim.token in s.issued && s.busy[w].claim.id in s.rows)
    && (forall v, w :: v in s.busy && w in s.busy && v != w ==> s.busy[v].claim.token != s.busy[w].claim.token)
    && (forall w, id :: w in s.busy && id in s.rows && s.rows[id].claimToken == Some(s.busy[w].claim.token)
                        ==> Matches(s.busy[w].claim, id, s.rows[id]))
  }

  // The row carries the lease and the attempt of the claim.
  predicate Matches(c: Claim, id: OutboxId, r: Row) {
    id == c.id && r.leaseExpiresAt == Some(c.leaseExpiresAt) && r.attemptCount == c.attempt
  }

  ghost predicate Inv(s: System) {
    RowsOk(s) && ClaimsOk(s)
  }

  // The update gives up the token or leaves the claim columns alone.
  predicate KeepsClaim(r: Row, r': Row) {
    || r'.claimToken.None?
    || (r'.claimToken == r.claimToken && r'.leaseExpiresAt == r.leaseExpiresAt && r'.attemptCount == r.attemptCount)
  }

  // No row gains a token: rows are new and unclaimed, or keep or give up their claim.
  ghost predicate NoNewToken(rows: map<OutboxId, Row>, rows': map<OutboxId, Row>) {
    && rows.Keys <= rows'.Keys
    && (forall id :: id in rows' ==> Healthy(rows'[id]))
    && (forall id :: id in rows' && id in rows ==> KeepsClaim(rows[id], rows'[id]))
    && (forall id :: id in rows' && id !in rows ==> rows'[id].claimToken.None?)
  }

  lemma NoNewTokenRows(s: System, s': System)
    requires RowsOk(s) && NoNewToken(s.rows, s'.rows) && s'.issued >= s.issued
    ensures RowsOk(s')
  {
    forall i, j | i in s'.rows && j in s'.rows && i != j && s'.rows[i].claimToken.Some?
      ensures s'.rows[i].claimToken != s'.rows[j].claimToken
    {
      assert i in s.rows && s.rows[i].claimToken == s'.rows[i].claimToken;
      if s'.rows[j].claimToken.Some? {
        assert j in s.rows && s.rows[j].claimToken == s'.rows[j].claimToken;
      }
    }
  }

  lemma NoNewTokenClaims(s: System, s': System)
    requires RowsOk(s) && NoNewToken(s.rows, s'.rows) && s'.issued >= s.issued
    requires ClaimsOk(s) && SameClaims(s.busy, s'.busy)
    ensures ClaimsOk(s')
  {
    forall w, id | w in s'.busy && id in s'.rows && s'.rows[id].claimToken == Some(s'.busy[w].claim.token)
      ensures Matches(s'.busy[w].claim, id, s'.rows[id])
    {
      assert w in s.busy && id in s.rows && s.rows[id].claimToken == s'.rows[id].claimToken;
      assert Matches(s.busy[w].claim, id, s.rows[id]);
    }
  }

  ghost predicate SameClaims(busy: map<Worker, Busy>, busy': map<Worker, Busy>) {
    && busy'.Keys <= busy.Keys
    && (forall w :: w in busy' ==> busy'[w].claim == busy[w].claim)
  }

  lemma CompletionTokens(s: System, c: Claim, o: Outcome, at: int)
    requires RowsOk(s)
    ensures NoNewToken(s.rows, CompletedRows(s.rows, c, o, at))
  {
    if c.id in s.rows && OwnedBy(s.rows[c.id], c.token) {
      CompletionMoves(s.rows[c.id], at, if o.Retry? then o.delay else 0, if o.Deliver? then LeaseExpired else o.code);
    }
  }

  lemma RecoveryTokens(s: System, at: int)
    requires RowsOk(s)
    ensures NoNewToken(s.rows, RecoveredRows(s.rows, at))
  {
    forall id | id in s.rows && Expired(s.rows[id], at)
      ensures Healthy(Recovered(s.rows[id], at)) && Recovered(s.rows[id], at).claimToken.None?
    {
      CompletionMoves(s.rows[id], at, 0, LeaseExpired);
    }
  }

  // Every event but a successful claim creates no token.
  lemma StepTokens(s: System, e: Event)
    requires RowsOk(s) && Enabled(s, e) && !e.ClaimNext?
    ensures NoNewToken(s.rows, Apply(s, e).rows)
  {
    match e
    case Enqueue(id, envelope, maxAttempts, at) => EnqueueIsHealthy(envelope, maxAttempts, at);
    case ClaimAndFail(id, token, at, lease, code) => ClaimThenFailMoves(s.rows[id], token, at, lease, code);
    case Complete(w, at) => CompletionTokens(s, s.busy[w].claim, s.busy[w].stage.outcome, at);
    case Recover(at) => RecoveryTokens(s, at);
    case Requeue(id, extra, at) => RequeueMove(s.rows[id], extra, at, at);
    case _ =>
  }

  // Storing a row whose token was never issued keeps tokens distinct.
  lemma FreshTokenRows(s: System, id: OutboxId, r: Row, token: Token, s': System)
    requires RowsOk(s) && Healthy(r) && r.claimToken == Some(token) && token !in s.issued
    requires s'.rows == s.rows[id := r] && s'.issued == s.issued + {token}
    ensures RowsOk(s')
  {
    assert forall i :: i in s.rows ==> s.rows[i].claimToken != Some(token);
  }

  // The claiming worker's claim matches the row it claimed, and nobody else's claim is disturbed.
  lemma FreshTokenClaims(s: System, w: Worker, id: OutboxId, r: Row, token: Token, s': System)
    requires Inv(s) && w !in s.busy && id in s.rows && r.claimToken == Some(token) && token !in s.issued
    requires r.leaseExpiresAt.Some?
    requires s'.rows == s.rows[id := r] && s'.issued == s.issued + {token}
    requires s'.busy == s.busy[w := Busy(Claim(id, token, r.attemptCount, r.leaseExpiresAt.value), BeforeCall)]
    ensures ClaimsOk(s')
  {
    assert forall v :: v in s.busy ==> s.busy[v].claim.token != token;
    assert forall i :: i in s.rows ==> s.rows[i].claimToken != Some(token);
  }

  lemma ClaimKeepsInv(s: System, e: Event)
    requires Inv(s) && Enabled(s, e) && e.ClaimNext?
    ensures Inv(Apply(s, e))
  {
    var r := Claimed(s.rows[e.id], e.token, e.at, e.lease);
    ClaimMove(s.rows[e.id], e.token, e.at, e.lease);
    FreshTokenRows(s, e.id, r, e.token, Apply(s, e));
    FreshTokenClaims(s, e.w, e.id, r, e.token, Apply(s, e));
  }

  lemma StepKeepsInv(s: System, e: Event)
    requires Inv(s) && Enabled(s, e)
    ensures Inv(Apply(s, e))
  {
    if e.ClaimNext? {
      ClaimKeepsInv(s, e);
    } else {
      StepTokens(s, e);
      NoNewTokenRows(s, Apply(s, e));
      NoNewTokenClaims(s, Apply(s, e));
    }
  }

  lemma {:induction false} InvariantAt(ss: seq<System>, es: seq<Event>, k: nat)
    requires Run(ss, es) && k < |ss|
    ensures Inv(ss[k])
  {
    if k > 0 {
      InvariantAt(ss, es, k - 1);
      assert StepOk(ss[k - 1], es[k - 1], ss[k]);
      StepKeepsInv(ss[k - 1], es[k - 1]);
    }
  }

  // The two facts about one event of a run that the theorems below need.
  lemma RunStep(ss: seq<System>, es: seq<Event>, k: nat)
    requires Run(ss, es) && k < |es|
    ensures Inv(ss[k]) && Enabled(ss[k], es[k]) && ss[k + 1] == Apply(ss[k], es[k])
  {
    InvariantAt(ss, es, k);
    assert StepOk(ss[k], es[k], ss[k + 1]);
  }

  // ---------------------------------------------------------------- every flushed update is legal

  // The successive values an event writes to row `id`.
  function Flushes(s: System, e: Event, id: OutboxId): seq<Row>
    requires Enabled(s, e) && id in s.rows
  {
    match e
    case ClaimNext(_, i, token, at, lease) => if i == id then [Claimed(s.rows[id], token, at, lease)] else []
    case ClaimAndFail(i, token, at, lease, code) =>
      if i == id then
        var c := Claimed(s.rows[id], token, at, lease);
        [c, FailedRow(c, at, code)]
      else []
    case Complete(w, at) =>
      var c := s.busy[w].claim;
      if c.id == id && OwnedBy(s.rows[id], c.token)
      then [CompletedRow(s.rows[id], s.busy[w].stage.outcome, at)] else []
    case Recover(at) => if Expired(s.rows[id], at) then [Recovered(s.rows[id], at)] else []
    case Requeue(i, extra, at) => if i == id then [Requeued(s.rows[id], extra, at)] else []
    case _ => []
  }

  ghost predicate LegalPath(r: Row, path: seq<Row>)
    decreases |path|
  {
    path == [] || (LegalMove(r, path[0]) && LegalPath(path[0], path[1..]))
  }

  // Every row update of every event satisfies the constraints and the update guard, changes the
  // status, and uses up potential; an event that writes nothing leaves the row as it was.
  lemma FlushesAreLegal(s: System, e: Event, id: OutboxId)
    requires Inv(s) && Enabled(s, e) && id in s.rows
    ensures LegalPath(s.rows[id], Flushes(s, e, id))
    ensures id in Apply(s, e).rows
    ensures var f := Flushes(s, e, id); var r' := Apply(s, e).rows[id];
            && r' == (if f == [] then s.rows[id] else f[|f| - 1])
            && Potential(r') + |f| <= Potential(s.rows[id])
            && r'.envelope == s.rows[id].envelope
  {
    var r, f := s.rows[id], Flushes(s, e, id);
    match e
    case ClaimNext(_, i, token, at, lease) =>
      if i == id { ClaimMove(r, token, at, lease); OneFlush(r, Claimed(r, token, at, lease)); }
    case ClaimAndFail(i, token, at, lease, code) =>
      if i == id { ClaimAndFailFlushes(r, token, at, lease, code); }
    case Complete(w, at) =>
      if f != [] { CompletionFlush(r, s.busy[w].stage.outcome, at); }
    case Recover(at) =>
      if f != [] { CompletionMoves(r, at, 0, LeaseExpired); OneFlush(r, Recovered(r, at)); }
    case Requeue(i, extra, at) =>
      if i == id { RequeueMove(r, extra, at, at); OneFlush(r, Requeued(r, extra, at)); }
    case _ =>
  }

  lemma OneFlush(r: Row, r': Row)
    requires LegalMove(r, r')
    ensures LegalPath(r, [r']) && Potential(r') + 1 <= Potential(r) && r'.envelope == r.envelope
  {
    assert [r'][1..] == [];
  }

  lemma ClaimAndFailFlushes(r: Row, token: Token, at: int, lease: int, code: ErrorCode)
    requires Healthy(r) && Due(r, at) && lease > 0
    ensures var c := Claimed(r, token, at, lease); var f := FailedRow(c, at, code);
            LegalPath(r, [c, f]) && Potential(f) + 2 <= Potential(r) && f.envelope == r.envelope
  {
    ClaimThenFailMoves(r, token, at, lease, code);
    var c := Claimed(r, token, at, lease);
    OneFlush(c, FailedRow(c, at, code));
    assert [c, FailedRow(c, at, code)][1..] == [FailedRow(c, at, code)];
  }

  lemma CompletionFlush(r: Row, o: Outcome, at: int)
    requires Healthy(r) && r.status == Processing
    ensures LegalPath(r, [CompletedRow(r, o, at)]) && Potential(CompletedRow(r, o, at)) + 1 <= Potential(r)
    ensures CompletedRow(r, o, at).envelope == r.envelope
  {
    CompletionMoves(r, at, if o.Retry? then o.delay else 0, if o.Deliver? then LeaseExpired else o.code);
    OneFlush(r, CompletedRow(r, o, at));
  }

  // ---------------------------------------------------------------- rows over whole runs

  lemma {:induction false} RowsPersist(ss: seq<System>, es: seq<Event>, i: nat, j: nat, id: OutboxId)
    requires Run(ss, es) && i <= j < |ss| && id in ss[i].rows
    ensures id in ss[j].rows && ss[j].rows[id].envelope == ss[i].rows[id].envelope
    ensures ss[i].rows[id].status == Delivered ==> ss[j].rows[id] == ss[i].rows[id]
  {
    if i < j {
      RowsPersist(ss, es, i, j - 1, id);
      InvariantAt(ss, es, j - 1);
      assert StepOk(ss[j - 1], es[j - 1], ss[j]);
      FlushesAreLegal(ss[j - 1], es[j - 1], id);
    }
  }

  // Every reachable row passes all CHECK constraints; a pending row can always be claimed again, and
  // a failed row has the positive attempt count that the requeue audit entry demands.
  lemma ReachableRows(ss: seq<System>, es: seq<Event>, k: nat, id: OutboxId)
    requires Run(ss, es) && k < |ss| && id in ss[k].rows
    ensures var r := ss[k].rows[id];
            && Checks(r)
            && (r.status == Pending ==> r.attemptCount < r.maxAttempts && exists t :: Due(r, t))
            && (r.status == Failed ==> r.attemptCount >= 1)
  {
    InvariantAt(ss, es, k);
    var r := ss[k].rows[id];
    if r.status == Pending {
      assert Due(r, r.nextAttemptAt.value);
    }
  }

  // ---------------------------------------------------------------- fencing

  // The token was issued and no row carries it any more.
  ghost predicate Retired(s: System, token: Token) {
    token in s.issued && forall id :: id in s.rows ==> s.rows[id].claimToken != Some(token)
  }

  predicate Effective(s: System, e: Event) {
    && e.Complete? && e.w in s.busy
    && var c := s.busy[e.w].claim; c.id in s.rows && OwnedBy(s.rows[c.id], c.token)
  }

  lemma {:induction false} RetiredForever(ss: seq<System>, es: seq<Event>, i: nat, j: nat, token: Token)
    requires Run(ss, es) && i <= j < |ss| && Retired(ss[i], token)
    ensures Retired(ss[j], token)
  {
    if i < j {
      RetiredForever(ss, es, i, j - 1, token);
      RunStep(ss, es, j - 1);
      RetiredStep(ss[j - 1], es[j - 1], token);
    }
  }

  lemma RetiredStep(s: System, e: Event, token: Token)
    requires Inv(s) && Enabled(s, e) && Retired(s, token)
    ensures Retired(Apply(s, e), token)
  {
    if !e.ClaimNext? {
      StepTokens(s, e);
    }
  }

  // An effective completion retires its token; any other completion writes nothing and the worker
  // is told that it lost the lease.
  lemma CompletionIsFenced(s: System, e: Event)
    requires Inv(s) && Enabled(s, e) && e.Complete?
    ensures var b := s.busy[e.w]; var report := CompletionReport(s.rows, b.claim, b.stage.outcome, e.at);
            if Effective(s, e)
            then && Retired(Apply(s, e), b.claim.token)
                 && report == Some(Apply(s, e).rows[b.claim.id].status)
                 && (forall id :: id in s.rows && id != b.claim.id ==> Apply(s, e).rows[id] == s.rows[id])
            else Apply(s, e).rows == s.rows && report == None
  {
    var b := s.busy[e.w];
    if Effective(s, e) {
      var o := b.stage.outcome;
      CompletionMoves(s.rows[b.claim.id], e.at, if o.Retry? then o.delay else 0,
                      if o.Deliver? then LeaseExpired else o.code);
    }
  }

  // At most one completion per claim token takes effect in a whole run.
  lemma OneEffectPerToken(ss: seq<System>, es: seq<Event>, i: nat, j: nat)
    requires Run(ss, es) && i < |es| && j < |es|
    requires Effective(ss[i], es[i]) && Effective(ss[j], es[j])
    requires ss[i].busy[es[i].w].claim.token == ss[j].busy[es[j].w].claim.token
    ensures i == j
  {
    var a, b := if i < j then i else j, if i < j then j else i;
    if a < b {
      InvariantAt(ss, es, a);
      assert StepOk(ss[a], es[a], ss[a + 1]);
      CompletionIsFenced(ss[a], es[a]);
      RetiredForever(ss, es, a + 1, b, ss[a].busy[es[a].w].claim.token);
    }
  }

  // ---------------------------------------------------------------- when a lease is lost

  predicate Owns(s: System, w: Worker) {
    w in s.busy && var c := s.busy[w].claim; c.id in s.rows && OwnedBy(s.rows[c.id], c.token)
  }

  // Some recovery in (i, j) read a clock at or past the lease.
  ghost predicate RecoveredPast(es: seq<Event>, i: nat, j: nat, lease: int)
    requires j <= |es|
  {
    exists k :: i < k < j && es[k].Recover? && lease <= es[k].at
  }

  predicate Leaves(e: Event, w: Worker) {
    (e.Complete? || e.Crash?) && e.w == w
  }

  lemma OwnershipStep(s: System, e: Event, w: Worker)
    requires Inv(s) && Enabled(s, e) && w in s.busy && !Leaves(e, w)
    ensures var s' := Apply(s, e);
            && w in s'.busy && s'.busy[w].claim == s.busy[w].claim
            && (Owns(s', w) <==> Owns(s, w) && !(e.Recover? && s.busy[w].claim.leaseExpiresAt <= e.at))
  {
    match e
    case Complete(v, at) => CompletionKeepsOthers(s, v, at, w);
    case Recover(at) =>
    case Requeue(_, _, _) =>
    case _ => ClaimKeepsOthers(s, e, w);
  }

  // A completion takes the row away from nobody but the worker that completes.
  lemma CompletionKeepsOthers(s: System, v: Worker, at: int, w: Worker)
    requires Inv(s) && Enabled(s, Complete(v, at)) && w in s.busy && v != w
    ensures w in Apply(s, Complete(v, at)).busy && (Owns(Apply(s, Complete(v, at)), w) <==> Owns(s, w))
  {
    assert s.busy[v].claim.token != s.busy[w].claim.token;
  }

  // A claim takes a row that nobody owns, with a token that nobody has.
  lemma ClaimKeepsOthers(s: System, e: Event, w: Worker)
    requires Inv(s) && Enabled(s, e) && w in s.busy && !Leaves(e, w)
    requires !e.Complete? && !e.Recover? && !e.Requeue?
    ensures w in Apply(s, e).busy && (Owns(Apply(s, e), w) <==> Owns(s, w))
  {
  }

  lemma RecoveredPastSplit(es: seq<Event>, i: nat, j: nat, lease: int)
    requires i < j < |es|
    ensures RecoveredPast(es, i, j + 1, lease)
            <==> RecoveredPast(es, i, j, lease) || (es[j].Recover? && lease <= es[j].at)
  {
  }

  function ClaimOf(s: System, e: Event): Claim
    requires e.ClaimNext? && e.id in s.rows
  {
    Claim(e.id, e.token, s.rows[e.id].attemptCount + 1, e.at + e.lease)
  }

  lemma ClaimStep(s: System, e: Event, s': System)
    requires StepOk(s, e, s') && e.ClaimNext?
    ensures e.id in s.rows && e.w in s'.busy && s'.busy[e.w].claim == ClaimOf(s, e) && Owns(s', e.w)
  {
  }

  lemma {:induction false} OwnershipOverRun(ss: seq<System>, es: seq<Event>, i: nat, j: nat, w: Worker)
    requires Run(ss, es) && i < j < |ss| && es[i].ClaimNext? && es[i].w == w
    requires forall k :: i < k < j ==> !Leaves(es[k], w)
    ensures es[i].id in ss[i].rows && w in ss[j].busy && ss[j].busy[w].claim == ClaimOf(ss[i], es[i])
    ensures Owns(ss[j], w) <==> !RecoveredPast(es, i, j, es[i].at + es[i].lease)
  {
    if i + 1 == j {
      ClaimStep(ss[i], es[i], ss[j]);
    } else {
      OwnershipOverRun(ss, es, i, j - 1, w);
      RunStep(ss, es, j - 1);
      OwnershipStep(ss[j - 1], es[j - 1], w);
      RecoveredPastSplit(es, i, j - 1, es[i].at + es[i].lease);
    }
  }

  // A completion is lost if and only if, since the claim, a recovery read a clock at or past its lease.
  lemma LostExactlyWhenRecovered(ss: seq<System>, es: seq<Event>, i: nat, j: nat, w: Worker)
    requires Run(ss, es) && i < j < |es| && es[i].ClaimNext? && es[i].w == w
    requires es[j].Complete? && es[j].w == w && forall k :: i < k < j ==> !Leaves(es[k], w)
    ensures Effective(ss[j], es[j]) <==> !RecoveredPast(es, i, j, es[i].at + es[i].lease)
  {
    OwnershipOverRun(ss, es, i, j, w);
    assert StepOk(ss[j], es[j], ss[j + 1]);
  }

  // ---------------------------------------------------------------- lease exclusivity

  // Every claim in progress is still inside its lease.
  ghost predicate Timely(s: System) {
    forall w :: w in s.busy ==> s.now < s.busy[w].claim.leaseExpiresAt
  }

  lemma {:induction false} TimelyOwnership(ss: seq<System>, es: seq<Event>, k: nat, w: Worker)
    requires Run(ss, es) && k < |ss| && (forall m :: 0 <= m < |ss| ==> Timely(ss[m])) && w in ss[k].busy
    ensures Owns(ss[k], w)
  {
    if k > 0 {
      var s, e := ss[k - 1], es[k - 1];
      assert StepOk(s, e, ss[k]);
      InvariantAt(ss, es, k - 1);
      if w in s.busy && !Leaves(e, w) {
        TimelyOwnership(ss, es, k - 1, w);
        assert Timely(s);
        OwnershipStep(s, e, w);
      }
    }
  }

  // If no claim in progress ever outlives its lease, then no two workers are ever at work on the
  // same row, so no two adapter calls for it overlap, and no completion is lost.
  lemma LeaseExclusivity(ss: seq<System>, es: seq<Event>)
    requires Run(ss, es) && forall m :: 0 <= m < |ss| ==> Timely(ss[m])
    ensures forall k, v, w :: 0 <= k < |ss| && v in ss[k].busy && w in ss[k].busy && v != w
                              ==> ss[k].busy[v].claim.id != ss[k].busy[w].claim.id
    ensures forall k :: 0 <= k < |es| && es[k].Complete? ==> Effective(ss[k], es[k])
  {
    forall k, v, w | 0 <= k < |ss| && v in ss[k].busy && w in ss[k].busy && v != w
      ensures ss[k].busy[v].claim.id != ss[k].busy[w].claim.id
    {
      InvariantAt(ss, es, k);
      TimelyOwnership(ss, es, k, v);
      TimelyOwnership(ss, es, k, w);
    }
    forall k | 0 <= k < |es| && es[k].Complete?
      ensures Effective(ss[k], es[k])
    {
      assert StepOk(ss[k], es[k], ss[k + 1]);
      TimelyOwnership(ss, es, k, es[k].w);
    }
  }

  // ---------------------------------------------------------------- termination

  // Status changes of row `id` in the first n events.
  ghost function StatusChanges(ss: seq<System>, es: seq<Event>, id: OutboxId, n: nat): nat
    requires Run(ss, es) && n <= |es|
  {
    if n == 0 then 0
    else
      assert StepOk(ss[n - 1], es[n - 1], ss[n]);
      StatusChanges(ss, es, id, n - 1)
      + (if id in ss[n - 1].rows then |Flushes(ss[n - 1], es[n - 1], id)| else 0)
  }

  lemma {:induction false} StatusChangesUsePotential(ss: seq<System>, es: seq<Event>, id: OutboxId, n: nat)
    requires Run(ss, es) && n <= |es|
    ensures if id in ss[n].rows then StatusChanges(ss, es, id, n) + Potential(ss[n].rows[id]) <= 59
            else StatusChanges(ss, es, id, n) == 0
  {
    if n > 0 {
      var s, e := ss[n - 1], es[n - 1];
      assert StepOk(s, e, ss[n]);
      StatusChangesUsePotential(ss, es, id, n - 1);
      InvariantAt(ss, es, n - 1);
      if id in s.rows {
        FlushesAreLegal(s, e, id);
      } else if e.Enqueue? {
        EnqueueIsHealthy(e.envelope, e.maxAttempts, e.at);
      }
    }
  }

  // A row changes status at most 59 times in its whole life, manual requeues included.
  lemma RowLifeIsBounded(ss: seq<System>, es: seq<Event>, id: OutboxId, n: nat)
    requires Run(ss, es) && n <= |es|
    ensures StatusChanges(ss, es, id, n) <= 59
  {
    StatusChangesUsePotential(ss, es, id, n);
    InvariantAt(ss, es, n);
  }

  // ---------------------------------------------------------------- adapter calls

  predicate StartsCallOn(s: System, e: Event, id: OutboxId) {
    e.StartCall? && e.w in s.busy && s.busy[e.w].claim.id == id
  }

  ghost function Calls(ss: seq<System>, es: seq<Event>, id: OutboxId, n: nat): nat
    requires Run(ss, es) && n <= |es|
  {
    if n == 0 then 0
    else Calls(ss, es, id, n - 1) + (if StartsCallOn(ss[n - 1], es[n - 1], id) then 1 else 0)
  }

  // The workers that hold a claim on the row and have not called the adapter yet.
  function Waiting(s: System, id: OutboxId): set<Worker> {
    set w | w in s.busy && s.busy[w].claim.id == id && s.busy[w].stage.BeforeCall?
  }

  lemma AttemptsStep(s: System, e: Event, id: OutboxId)
    requires Inv(s) && Enabled(s, e) && id in s.rows
    ensures id in Apply(s, e).rows
    ensures var grows := e.ClaimNext? && e.id == id;
            Apply(s, e).rows[id].attemptCount >= s.rows[id].attemptCount + (if grows then 1 else 0)
  {
    FlushesAreLegal(s, e, id);
  }

  lemma WaitingStep(s: System, e: Event, id: OutboxId)
    requires Inv(s) && Enabled(s, e)
    ensures Waiting(Apply(s, e), id) <= Waiting(s, id) + (if e.ClaimNext? && e.id == id then {e.w} else {})
    ensures StartsCallOn(s, e, id) ==> e.w in Waiting(s, id) && e.w !in Waiting(Apply(s, e), id)
  {
  }

  lemma WaitingCount(s: System, e: Event, id: OutboxId)
    requires Inv(s) && Enabled(s, e)
    ensures |Waiting(Apply(s, e), id)| + (if StartsCallOn(s, e, id) then 1 else 0)
            <= |Waiting(s, id)| + (if e.ClaimNext? && e.id == id then 1 else 0)
  {
    WaitingStep(s, e, id);
    var before, after := Waiting(s, id), Waiting(Apply(s, e), id);
    if e.ClaimNext? && e.id == id {
      AddOne(before - {e.w}, e.w);
      SubsetSize(before - {e.w}, before);
      SubsetSize(after, before - {e.w} + {e.w});
    } else if StartsCallOn(s, e, id) {
      AddOne(after, e.w);
      SubsetSize(after + {e.w}, before);
    } else {
      SubsetSize(after, before);
    }
  }

  lemma CallsStep(s: System, e: Event, id: OutboxId)
    requires Inv(s) && Enabled(s, e)
    ensures var s' := Apply(s, e);
            if id in s.rows
            then && id in s'.rows
                 && |Waiting(s', id)| + (if StartsCallOn(s, e, id) then 1 else 0) - |Waiting(s, id)|
                    <= s'.rows[id].attemptCount - s.rows[id].attemptCount
            else && !StartsCallOn(s, e, id) && Waiting(s', id) == {}
                 && (id in s'.rows ==> 0 <= s'.rows[id].attemptCount)
  {
    if id in s.rows {
      WaitingCount(s, e, id);
      AttemptsStep(s, e, id);
    }
  }

  lemma {:induction false} CallsPlusWaiting(ss: seq<System>, es: seq<Event>, id: OutboxId, n: nat)
    requires Run(ss, es) && n <= |es|
    ensures if id in ss[n].rows then Calls(ss, es, id, n) + |Waiting(ss[n], id)| <= ss[n].rows[id].attemptCount
            else Calls(ss, es, id, n) == 0 && Waiting(ss[n], id) == {}
  {
    if n > 0 {
      CallsPlusWaiting(ss, es, id, n - 1);
      RunStep(ss, es, n - 1);
      CallsStep(ss[n - 1], es[n - 1], id);
    }
  }

  // The adapter is called for a row at most as often as the row was claimed, so at most 20 times.
  lemma AdapterCallsAreBounded(ss: seq<System>, es: seq<Event>, id: OutboxId, n: nat)
    requires Run(ss, es) && n <= |es| && id in ss[n].rows
    ensures Calls(ss, es, id, n) <= ss[n].rows[id].attemptCount <= ss[n].rows[id].maxAttempts <= 20
  {
    CallsPlusWaiting(ss, es, id, n);
    InvariantAt(ss, es, n);
  }
}
