/** Incident status transitions and comments with operator-scoped idempotency. Every request is one
    transaction under its locks. The canonical request hash is taken to be injective, so the request
    itself stands for it; an entry's id is its position in its table. */
module IncidentWorkflow {
  import opened Prelude

  type IncidentId = nat
  type OperatorId = nat
  type Key = string

  datatype Status = New | Investigating | Resolved | FalsePositive

  datatype Incident = Incident(status: Status, lockVersion: nat, updatedAt: int)

  datatype Kind = Baseline | StatusTransition

  datatype HistoryEntry = HistoryEntry(
    incident: IncidentId, version: nat, kind: Kind, fromStatus: Option<Status>, toStatus: Status,
    reason: Option<string>, operator: Option<OperatorId>, createdAt: int)

  datatype Comment = Comment(incident: IncidentId, operator: OperatorId, body: string, createdAt: int)

  datatype Audit =
    | StatusChanged(operator: OperatorId, incident: IncidentId, historyId: nat,
                    fromStatus: Status, fromVersion: nat, toStatus: Status, toVersion: nat)
    | CommentAdded(operator: OperatorId, commentId: nat, incident: IncidentId)

  datatype Request =
    | Transition(incident: IncidentId, target: Status, expectedVersion: nat, reason: Option<string>)
    | AddComment(incident: IncidentId, body: string)

  datatype Body =
    | NotFound
    | StaleVersion(currentVersion: nat)
    | NotAllowed
    | TransitionDone(snapshot: Incident, historyId: nat)
    | CommentDone(commentId: nat)
    | KeyReused

  datatype Outcome = Outcome(httpStatus: nat, body: Body, replayed: bool)

  datatype Record = Record(request: Request, httpStatus: nat, body: Body)

  datatype Db = Db(
    incidents: map<IncidentId, Incident>, history: seq<HistoryEntry>, comments: seq<Comment>, audit: seq<Audit>,
    records: map<(OperatorId, Key), Record>)

  const EMPTY := Db(map[], [], [], [], map[])

  // ---------------------------------------------------------------- the state machine

  predicate Allowed(a: Status, b: Status) {
    match a
    case New => b in {Investigating, Resolved, FalsePositive}
    case Investigating => b in {Resolved, FalsePositive}
    case Resolved => false
    case FalsePositive => false
  }

  predicate Terminal(s: Status) {
    s in {Resolved, FalsePositive}
  }

  // What validation lets through before idempotency begins.
  predicate Normalized(r: Request) {
    match r
    case Transition(_, target, expectedVersion, reason) =>
      && 1 <= expectedVersion <= 2147483647
      && (Terminal(target) ==> reason.Some?)
      && (reason.Some? ==> 1 <= |reason.value| <= 1000)
    case AddComment(_, body) => 1 <= |body| <= 1000
  }

  // ---------------------------------------------------------------- one request

  function Created(db: Db, id: IncidentId, now: int): Db {
    db.(incidents := db.incidents[id := Incident(New, 1, now)],
        history := db.history + [HistoryEntry(id, 1, Baseline, None, New, None, None, now)])
  }

  // The business outcome of a request that has no record yet, and the state without its record.
  function Performed(db: Db, actor: OperatorId, r: Request, now: int): (Db, nat, Body) {
    if r.incident !in db.incidents then (db, 404, NotFound)
    else match r
      case AddComment(id, body) =>
        var n := |db.comments|;
        (db.(comments := db.comments + [Comment(id, actor, body, now)],
             audit := db.audit + [CommentAdded(actor, n, id)]), 200, CommentDone(n))
      case Transition(id, target, expectedVersion, reason) =>
        var i := db.incidents[id];
        if i.lockVersion != expectedVersion then (db, 409, StaleVersion(i.lockVersion))
        else if !Allowed(i.status, target) then (db, 409, NotAllowed)
        else
          var i' := Incident(target, i.lockVersion + 1, now);
          var n := |db.history|;
          (db.(incidents := db.incidents[id := i'],
               history := db.history + [HistoryEntry(id, i.lockVersion + 1, StatusTransition, Some(i.status), target,
                                                     reason, Some(actor), now)],
               audit := db.audit + [StatusChanged(actor, id, n, i.status, i.lockVersion, target, i.lockVersion + 1)]),
           200, TransitionDone(i', n))
  }

  function Handled(db: Db, actor: OperatorId, key: Key, r: Request, now: int): (Db, Outcome) {
    if (actor, key) in db.records then
      var rec := db.records[(actor, key)];
      (db, if rec.request == r then Outcome(rec.httpStatus, rec.body, true) else Outcome(409, KeyReused, false))
    else
      var (db', status, body) := Performed(db, actor, r, now);
      (db'.(records := db'.records[(actor, key) := Record(r, status, body)]), Outcome(status, body, false))
  }

  // ---------------------------------------------------------------- what a request means, field by field

  // A new incident may go anywhere else, one under investigation may only be closed, and a closed one stays.
  predicate MayMove(a: Status, b: Status) {
    (a == New && b != New) || (a == Investigating && (b == Resolved || b == FalsePositive))
  }

  // A known key changes nothing: its own request gets its answer again, any other is refused.
  predicate Replays(rec: Record, r: Request, o: Outcome) {
    && (rec.request == r ==> o.httpStatus == rec.httpStatus && o.body == rec.body && o.replayed)
    && (rec.request != r ==> o.httpStatus == 409 && o.body == KeyReused && !o.replayed)
  }

  // The answer is recorded under its key, and every other record is kept.
  ghost predicate IsRecorded(db: Db, db': Db, actor: OperatorId, key: Key, r: Request, o: Outcome) {
    && !o.replayed && (actor, key) in db'.records
    && db'.records[(actor, key)].request == r && db'.records[(actor, key)].httpStatus == o.httpStatus
    && db'.records[(actor, key)].body == o.body
    && db'.records.Keys == db.records.Keys + {(actor, key)}
    && forall other :: other in db.records && other != (actor, key) ==> db'.records[other] == db.records[other]
  }

  predicate OnlyRecordsChange(db: Db, db': Db) {
    db'.incidents == db.incidents && db'.history == db.history && db'.comments == db.comments && db'.audit == db.audit
  }

  // The incident moves to the target, with one history entry and one audit row that tell of this move.
  ghost predicate IsMoved(db: Db, db': Db, actor: OperatorId, r: Request, now: int, o: Outcome)
    requires r.Transition? && r.incident in db.incidents
  {
    var (id, n, m) := (r.incident, |db.history|, |db.audit|);
    && db'.incidents.Keys == db.incidents.Keys && db'.comments == db.comments
    && (forall other :: other in db.incidents && other != id ==> db'.incidents[other] == db.incidents[other])
    && var (i, i') := (db.incidents[id], db'.incidents[id]);
       && i'.status == r.target && i'.lockVersion == i.lockVersion + 1 && i'.updatedAt == now
       && o.httpStatus == 200 && o.body.TransitionDone? && o.body.snapshot == i' && o.body.historyId == n
       && |db'.history| == n + 1 && db'.history[..n] == db.history
       && var h := db'.history[n];
          && h.incident == id && h.version == i.lockVersion + 1 && h.kind == StatusTransition
          && h.fromStatus == Some(i.status) && h.toStatus == r.target && h.reason == r.reason
          && h.operator == Some(actor) && h.createdAt == now
          && |db'.audit| == m + 1 && db'.audit[..m] == db.audit
          && var a := db'.audit[m];
             && a.StatusChanged? && a.operator == actor && a.incident == id && a.historyId == n
             && a.fromStatus == i.status && a.fromVersion == i.lockVersion
             && a.toStatus == r.target && a.toVersion == i.lockVersion + 1
  }

  ghost predicate IsCommented(db: Db, db': Db, actor: OperatorId, r: Request, now: int, o: Outcome)
    requires r.AddComment?
  {
    var (n, m) := (|db.comments|, |db.audit|);
    && db'.incidents == db.incidents && db'.history == db.history
    && |db'.comments| == n + 1 && db'.comments[..n] == db.comments
    && db'.comments[n].incident == r.incident && db'.comments[n].operator == actor
    && db'.comments[n].body == r.body && db'.comments[n].createdAt == now
    && |db'.audit| == m + 1 && db'.audit[..m] == db.audit
    && db'.audit[m].CommentAdded? && db'.audit[m].operator == actor
    && db'.audit[m].incident == r.incident && db'.audit[m].commentId == n
    && o.httpStatus == 200 && o.body == CommentDone(n)
  }

  // The whole effect of a request.
  ghost predicate RequestMeans(
    db: Db, db': Db, actor: OperatorId, key: Key, r: Request, now: int, o: Outcome)
  {
    if (actor, key) in db.records then db' == db && Replays(db.records[(actor, key)], r, o)
    else
      && IsRecorded(db, db', actor, key, r, o)
      && if r.incident !in db.incidents then
           OnlyRecordsChange(db, db') && o.httpStatus == 404 && o.body == NotFound
         else if r.AddComment? then IsCommented(db, db', actor, r, now, o)
         else if db.incidents[r.incident].lockVersion != r.expectedVersion then
           && OnlyRecordsChange(db, db') && o.httpStatus == 409
           && o.body == StaleVersion(db.incidents[r.incident].lockVersion)
         else if !MayMove(db.incidents[r.incident].status, r.target) then
           OnlyRecordsChange(db, db') && o.httpStatus == 409 && o.body == NotAllowed
         else IsMoved(db, db', actor, r, now, o)
  }

  lemma RequestIsMeant(db: Db, actor: OperatorId, key: Key, r: Request, now: int)
    ensures var (db', o) := Handled(db, actor, key, r, now); RequestMeans(db, db', actor, key, r, now, o)
  {
    assert r.Transition? && r.incident in db.incidents ==>
        (Allowed(db.incidents[r.incident].status, r.target) <==> MayMove(db.incidents[r.incident].status, r.target));
  }

  class IncidentStore {
    var db: Db

    constructor ()
      ensures db == EMPTY
    {
      db := EMPTY;
    }

    method StoreOutcome(actor: OperatorId, key: Key, r: Request, status: nat, body: Body) returns (o: Outcome)
      requires (actor, key) !in db.records
      modifies this
      ensures db == old(db).(records := old(db).records[(actor, key) := Record(r, status, body)])
      ensures o == Outcome(status, body, false)
    {
      db := db.(records := db.records[(actor, key) := Record(r, status, body)]);
      o := Outcome(status, body, false);
    }

    method TransitionIncident(actor: OperatorId, key: Key, r: Request, now: int) returns (o: Outcome)
      requires r.Transition? && Normalized(r)
      modifies this
      ensures (db, o) == Handled(old(db), actor, key, r, now)
      ensures o.httpStatus == 200 && !o.replayed <==>
                && (actor, key) !in old(db).records && r.incident in old(db).incidents
                && old(db).incidents[r.incident].lockVersion == r.expectedVersion
                && MayMove(old(db).incidents[r.incident].status, r.target)
      ensures RequestMeans(old(db), db, actor, key, r, now, o)
    {
      RequestIsMeant(db, actor, key, r, now);
      if (actor, key) in db.records {
        var existing := db.records[(actor, key)];
        if existing.request == r {
          return Outcome(existing.httpStatus, existing.body, true);
        }
        return Outcome(409, KeyReused, false);
      }
      if r.incident !in db.incidents {
        o := StoreOutcome(actor, key, r, 404, NotFound);
        return;
      }
      var incident := db.incidents[r.incident];
      if incident.lockVersion != r.expectedVersion {
        o := StoreOutcome(actor, key, r, 409, StaleVersion(incident.lockVersion));
        return;
      }
      if !Allowed(incident.status, r.target) {
        o := StoreOutcome(actor, key, r, 409, NotAllowed);
        return;
      }
      var previous, next := incident.status, incident.lockVersion + 1;
      incident := Incident(r.target, next, now);
      db := db.(incidents := db.incidents[r.incident := incident]);
      var historyId := |db.history|;
      var entry := HistoryEntry(r.incident, next, StatusTransition, Some(previous), incident.status, r.reason,
                                Some(actor), now);
      db := db.(history := db.history + [entry]);
      db := db.(audit := db.audit + [StatusChanged(actor, r.incident, historyId, previous, next - 1,
                                                   incident.status, next)]);
      o := StoreOutcome(actor, key, r, 200, TransitionDone(incident, historyId));
    }

    method AddIncidentComment(actor: OperatorId, key: Key, r: Request, now: int) returns (o: Outcome)
      requires r.AddComment? && Normalized(r)
      modifies this
      ensures (db, o) == Handled(old(db), actor, key, r, now)
      ensures o.httpStatus == 200 && !o.replayed <==>
                (actor, key) !in old(db).records && r.incident in old(db).incidents
      ensures RequestMeans(old(db), db, actor, key, r, now, o)
    {
      RequestIsMeant(db, actor, key, r, now);
      if (actor, key) in db.records {
        var existing := db.records[(actor, key)];
        if existing.request.AddComment? && existing.request == r {
          return Outcome(existing.httpStatus, existing.body, true);
        }
        return Outcome(409, KeyReused, false);
      }
      if r.incident !in db.incidents {
        o := StoreOutcome(actor, key, r, 404, NotFound);
        return;
      }
      var commentId := |db.comments|;
      db := db.(comments := db.comments + [Comment(r.incident, actor, r.body, now)]);
      db := db.(audit := db.audit + [CommentAdded(actor, commentId, r.incident)]);
      o := StoreOutcome(actor, key, r, 200, CommentDone(commentId));
    }

    method CreateIncident(id: IncidentId, now: int)
      requires id !in db.incidents
      modifies this
      ensures db == Created(old(db), id, now)
      ensures id in db.incidents && db.incidents == old(db).incidents[id := db.incidents[id]]
      ensures var i := db.incidents[id]; i.status == New && i.lockVersion == 1 && i.updatedAt == now
      ensures var n := |old(db).history|;
              && |db.history| == n + 1 && db.history[..n] == old(db).history
              && var h := db.history[n];
                 && h.incident == id && h.version == 1 && h.kind == Baseline && h.fromStatus == None
                 && h.toStatus == New && h.reason == None && h.operator == None && h.createdAt == now
      ensures db.comments == old(db).comments && db.audit == old(db).audit && db.records == old(db).records
    {
      db := db.(incidents := db.incidents[id := Incident(New, 1, now)]);
      var entry := HistoryEntry(id, 1, Baseline, None, db.incidents[id].status, None, None, now);
      db := db.(history := db.history + [entry]);
    }
  }

  // ---------------------------------------------------------------- runs

  datatype Event =
    | Create(id: IncidentId, now: int)
    | Handle(actor: OperatorId, key: Key, request: Request, now: int)

  predicate Enabled(db: Db, e: Event) {
    match e
    case Create(id, _) => id !in db.incidents
    case Handle(_, _, request, _) => Normalized(request)
  }

  function Apply(db: Db, e: Event): Db {
    match e
    case Create(id, now) => Created(db, id, now)
    case Handle(actor, key, request, now) => Handled(db, actor, key, request, now).0
  }

  function Answer(db: Db, e: Event): Outcome
    requires e.Handle?
  {
    Handled(db, e.actor, e.key, e.request, e.now).1
  }

  ghost predicate StepOk(db: Db, e: Event, db': Db) {
    Enabled(db, e) && db' == Apply(db, e)
  }

  ghost predicate Run(ss: seq<Db>, es: seq<Event>) {
    && |ss| == |es| + 1 && ss[0] == EMPTY
    && forall k {:trigger es[k]} :: 0 <= k < |es| ==> StepOk(ss[k], es[k], ss[k + 1])
  }

  // An incident can be investigated and closed: such a run exists for every closing status.
  lemma ClosingIsReachable(id: IncidentId, actor: OperatorId, target: Status, reason: string, now: int)
      returns (ss: seq<Db>, es: seq<Event>)
    requires Terminal(target) && 1 <= |reason| <= 1000
    ensures Run(ss, es) && |es| == 3
    ensures id in ss[3].incidents && ss[3].incidents[id] == Incident(target, 3, now)
  {
    var look := Transition(id, Investigating, 1, None);
    var close := Transition(id, target, 2, Some(reason));
    es := [Create(id, now), Handle(actor, "look", look, now), Handle(actor, "close", close, now)];
    var s1 := Apply(EMPTY, es[0]);
    var s2 := Apply(s1, es[1]);
    assert s1.incidents[id] == Incident(New, 1, now) && s1.records == map[];
    assert s2.incidents[id] == Incident(Investigating, 2, now) && s2.records.Keys == {(actor, "look")};
    assert "look"[0] != "close"[0];
    ss := [EMPTY, s1, s2, Apply(s2, es[2])];
  }

  // ---------------------------------------------------------------- the history chain

  function HistoryOf(history: seq<HistoryEntry>, id: IncidentId): seq<HistoryEntry> {
    if history == [] then []
    else
      var n := |history| - 1;
      HistoryOf(history[..n], id) + (if history[n].incident == id then [history[n]] else [])
  }

  lemma HistoryAppend(history: seq<HistoryEntry>, e: HistoryEntry, id: IncidentId)
    ensures HistoryOf(history + [e], id) == HistoryOf(history, id) + (if e.incident == id then [e] else [])
  {
    assert (history + [e])[..|history|] == history;
  }

  // Versions run from 1 to the lock version without gaps, starting from the baseline; every link
  // continues the previous status by an allowed transition, ends in the current status, and a
  // terminal one has a reason.
  ghost predicate Chain(h: seq<HistoryEntry>, i: Incident) {
    && |h| == i.lockVersion && 1 <= |h| <= 3
    && (forall v :: 0 <= v < |h| ==> h[v].version == v + 1)
    && h[0].kind == Baseline && h[0].fromStatus == None && h[0].toStatus == New
    && (forall v :: 1 <= v < |h| ==>
          && h[v].kind == StatusTransition && h[v].fromStatus == Some(h[v - 1].toStatus)
          && Allowed(h[v - 1].toStatus, h[v].toStatus)
          && (Terminal(h[v].toStatus) ==> h[v].reason.Some?))
    && h[|h| - 1].toStatus == i.status
  }

  ghost predicate Chains(db: Db) {
    && (forall id :: id in db.incidents ==> Chain(HistoryOf(db.history, id), db.incidents[id]))
    && (forall k :: 0 <= k < |db.history| ==> db.history[k].incident in db.incidents)
  }

  lemma {:induction false} NoHistory(history: seq<HistoryEntry>, id: IncidentId)
    requires forall k :: 0 <= k < |history| ==> history[k].incident != id
    ensures HistoryOf(history, id) == []
  {
    if history != [] { NoHistory(history[..|history| - 1], id); }
  }

  lemma ChainGrows(h: seq<HistoryEntry>, i: Incident, entry: HistoryEntry, i': Incident)
    requires Chain(h, i) && Allowed(i.status, i'.status) && i'.lockVersion == i.lockVersion + 1
    requires entry.version == i'.lockVersion && entry.kind == StatusTransition && entry.fromStatus == Some(i.status)
    requires entry.toStatus == i'.status && (Terminal(i'.status) ==> entry.reason.Some?)
    ensures Chain(h + [entry], i')
  {
    ThirdIsTerminal(h, i);
  }

  // Two transitions always end in a terminal status, so there is never a third.
  lemma ThirdIsTerminal(h: seq<HistoryEntry>, i: Incident)
    requires Chain(h, i)
    ensures |h| == 3 ==> Terminal(i.status)
  {
    if |h| == 3 {
      assert Allowed(h[0].toStatus, h[1].toStatus) && Allowed(h[1].toStatus, h[2].toStatus);
    }
  }

  lemma ChainsAppend(db: Db, entry: HistoryEntry, i: Incident, db': Db)
    requires Chains(db) && db'.history == db.history + [entry] && db'.incidents == db.incidents[entry.incident := i]
    requires Chain(HistoryOf(db.history, entry.incident) + [entry], i)
    ensures Chains(db')
  {
    forall id | id in db'.incidents
      ensures Chain(HistoryOf(db'.history, id), db'.incidents[id])
    {
      ChainAppendAt(db, entry, i, id);
    }
    forall k | 0 <= k < |db'.history|
      ensures db'.history[k].incident in db'.incidents
    {
      assert k < |db.history| ==> db'.history[k] == db.history[k];
    }
  }

  lemma ChainAppendAt(db: Db, entry: HistoryEntry, i: Incident, id: IncidentId)
    requires id == entry.incident || (id in db.incidents && Chain(HistoryOf(db.history, id), db.incidents[id]))
    requires Chain(HistoryOf(db.history, entry.incident) + [entry], i)
    ensures Chain(HistoryOf(db.history + [entry], id), db.incidents[entry.incident := i][id])
  {
    HistoryAppend(db.history, entry, id);
    if id != entry.incident {
      assert HistoryOf(db.history + [entry], id) == HistoryOf(db.history, id);
    }
  }

  lemma CreateKeepsChains(db: Db, id: IncidentId, now: int)
    requires Chains(db) && id !in db.incidents
    ensures Chains(Created(db, id, now))
  {
    var entry := HistoryEntry(id, 1, Baseline, None, New, None, None, now);
    NoHistory(db.history, id);
    assert [] + [entry] == [entry];
    ChainsAppend(db, entry, Incident(New, 1, now), Created(db, id, now));
  }

  lemma StepKeepsChains(db: Db, e: Event)
    requires Chains(db) && Enabled(db, e)
    ensures Chains(Apply(db, e))
  {
    if e.Create? {
      CreateKeepsChains(db, e.id, e.now);
    } else if (e.actor, e.key) !in db.records {
      var db' := Performed(db, e.actor, e.request, e.now).0;
      assert Apply(db, e).incidents == db'.incidents && Apply(db, e).history == db'.history;
      PerformedKeepsChains(db, e.actor, e.request, e.now);
    }
  }

  lemma PerformedKeepsChains(db: Db, actor: OperatorId, r: Request, now: int)
    requires Chains(db) && Normalized(r)
    ensures Chains(Performed(db, actor, r, now).0)
  {
    var (db', status, body) := Performed(db, actor, r, now);
    if body.TransitionDone? {
      var entry := db'.history[|db.history|];
      ChainGrows(HistoryOf(db.history, r.incident), db.incidents[r.incident], entry, body.snapshot);
      ChainsAppend(db, entry, body.snapshot, db');
    }
  }

  // ---------------------------------------------------------------- records, entries and audit rows

  // Positions of the transition entries, and of the entries that the audit rows point to, in order.
  function TransitionIds(history: seq<HistoryEntry>): seq<nat> {
    if history == [] then []
    else
      var n := |history| - 1;
      TransitionIds(history[..n]) + (if history[n].kind == StatusTransition then [n] else [])
  }

  function AuditedTransitions(audit: seq<Audit>): seq<nat> {
    if audit == [] then []
    else
      var n := |audit| - 1;
      AuditedTransitions(audit[..n]) + (if audit[n].StatusChanged? then [audit[n].historyId] else [])
  }

  function AuditedComments(audit: seq<Audit>): seq<nat> {
    if audit == [] then []
    else
      var n := |audit| - 1;
      AuditedComments(audit[..n]) + (if audit[n].CommentAdded? then [audit[n].commentId] else [])
  }

  predicate AuditMatches(db: Db, a: Audit) {
    match a
    case StatusChanged(operator, incident, historyId, fromStatus, fromVersion, toStatus, toVersion) =>
      && historyId < |db.history|
      && var h := db.history[historyId];
         && h.kind == StatusTransition && h.incident == incident && h.operator == Some(operator)
         && h.fromStatus == Some(fromStatus) && h.toStatus == toStatus
         && h.version == toVersion == fromVersion + 1
    case CommentAdded(operator, commentId, incident) =>
      && commentId < |db.comments|
      && db.comments[commentId].operator == operator && db.comments[commentId].incident == incident
  }

  // Exactly one audit row per transition entry and per comment, in the same order, with its details.
  ghost predicate Audited(db: Db) {
    && AuditedTransitions(db.audit) == TransitionIds(db.history)
    && AuditedComments(db.audit) == seq(|db.comments|, i => i)
    && (forall k :: 0 <= k < |db.audit| ==> AuditMatches(db, db.audit[k]))
  }

  lemma AuditMatchesLater(db: Db, db': Db)
    requires db.history <= db'.history && db.comments <= db'.comments
    ensures forall a :: AuditMatches(db, a) ==> AuditMatches(db', a)
  {
    forall a | AuditMatches(db, a) ensures AuditMatches(db', a) {}
  }

  // One more audit row, for one more transition entry or one more comment.
  lemma AuditRowAppended(db: Db, row: Audit, db': Db)
    requires Audited(db) && db.history <= db'.history && db.comments <= db'.comments
    requires db'.audit == db.audit + [row] && AuditMatches(db', row)
    requires TransitionIds(db'.history)
             == TransitionIds(db.history) + (if row.StatusChanged? then [row.historyId] else [])
    requires if row.CommentAdded? then row.commentId == |db.comments| == |db'.comments| - 1
             else db'.comments == db.comments
    ensures Audited(db')
  {
    AuditMatchesLater(db, db');
    assert db'.audit[..|db.audit|] == db.audit;
  }

  lemma HistoryAppended(history: seq<HistoryEntry>, entry: HistoryEntry)
    ensures TransitionIds(history + [entry])
            == TransitionIds(history) + (if entry.kind == StatusTransition then [|history|] else [])
  {
    assert (history + [entry])[..|history|] == history;
  }

  lemma PerformedKeepsAudited(db: Db, actor: OperatorId, r: Request, now: int)
    requires Audited(db)
    ensures Audited(Performed(db, actor, r, now).0)
  {
    var (db', status, body) := Performed(db, actor, r, now);
    if body.TransitionDone? {
      HistoryAppended(db.history, db'.history[|db.history|]);
      AuditRowAppended(db, db'.audit[|db.audit|], db');
    } else if body.CommentDone? {
      assert TransitionIds(db.history) + [] == TransitionIds(db.history);
      AuditRowAppended(db, db'.audit[|db.audit|], db');
    }
  }

  lemma StepKeepsAudited(db: Db, e: Event)
    requires Audited(db) && Enabled(db, e)
    ensures Audited(Apply(db, e))
  {
    if e.Create? {
      HistoryAppended(db.history, Apply(db, e).history[|db.history|]);
      AuditMatchesLater(db, Apply(db, e));
    } else if (e.actor, e.key) !in db.records {
      var db' := Performed(db, e.actor, e.request, e.now).0;
      PerformedKeepsAudited(db, e.actor, e.request, e.now);
      AuditMatchesLater(db', Apply(db, e));
    }
  }

  // What a stored success says happened did happen.
  predicate RecordMatches(db: Db, actor: OperatorId, rec: Record) {
    match rec.body
    case TransitionDone(snapshot, historyId) =>
      && rec.httpStatus == 200 && rec.request.Transition? && historyId < |db.history|
      && var h := db.history[historyId];
         && h.kind == StatusTransition && h.operator == Some(actor) && h.incident == rec.request.incident
         && h.toStatus == rec.request.target == snapshot.status && h.reason == rec.request.reason
         && h.version == rec.request.expectedVersion + 1 == snapshot.lockVersion
    case CommentDone(commentId) =>
      && rec.httpStatus == 200 && rec.request.AddComment? && commentId < |db.comments|
      && var c := db.comments[commentId];
         c.operator == actor && c.incident == rec.request.incident && c.body == rec.request.body
    case KeyReused => false
    case _ => rec.httpStatus in {404, 409}
  }

  ghost predicate Recorded(db: Db) {
    && (forall k :: k in db.records ==> RecordMatches(db, k.0, db.records[k]))
    && (forall h :: 0 <= h < |db.history| && db.history[h].kind == StatusTransition ==> TransitionRecorded(db, h))
    && (forall c :: 0 <= c < |db.comments| ==> CommentRecorded(db, c))
    && (forall j, k :: j in db.records && k in db.records && j != k ==>
        DifferentEffects(db.records[j].body, db.records[k].body))
  }

  ghost predicate TransitionRecorded(db: Db, h: nat) {
    exists k :: k in db.records && db.records[k].body.TransitionDone? && db.records[k].body.historyId == h
  }

  ghost predicate CommentRecorded(db: Db, c: nat) {
    exists k :: k in db.records && db.records[k].body.CommentDone? && db.records[k].body.commentId == c
  }

  predicate DifferentEffects(a: Body, b: Body) {
    && (a.TransitionDone? && b.TransitionDone? ==> a.historyId != b.historyId)
    && (a.CommentDone? && b.CommentDone? ==> a.commentId != b.commentId)
  }

  lemma RecordedGrows(db: Db, mid: Db, k0: (OperatorId, Key), rec: Record)
    requires Recorded(db) && k0 !in db.records && mid.records == db.records
    requires db.history <= mid.history && db.comments <= mid.comments && RecordMatches(mid, k0.0, rec)
    requires |mid.history| == |db.history| + (if rec.body.TransitionDone? then 1 else 0)
    requires |mid.comments| == |db.comments| + (if rec.body.CommentDone? then 1 else 0)
    requires rec.body.TransitionDone? ==> rec.body.historyId == |db.history|
    requires rec.body.CommentDone? ==> rec.body.commentId == |db.comments|
    ensures Recorded(mid.(records := mid.records[k0 := rec]))
  {
    var db' := mid.(records := mid.records[k0 := rec]);
    forall k | k in db'.records
      ensures RecordMatches(db', k.0, db'.records[k])
      ensures k != k0 ==>
                DifferentEffects(db'.records[k].body, rec.body) && DifferentEffects(rec.body, db'.records[k].body)
    {
      if k != k0 { assert RecordMatches(db, k.0, db.records[k]); }
    }
    assert k0 in db'.records;
    forall h | 0 <= h < |db'.history| && db'.history[h].kind == StatusTransition
      ensures TransitionRecorded(db', h)
    {
      if h < |db.history| {
        assert TransitionRecorded(db, h);
        var k :| k in db.records && db.records[k].body.TransitionDone? && db.records[k].body.historyId == h;
        assert k in db'.records;
      }
    }
    forall c | 0 <= c < |db'.comments|
      ensures CommentRecorded(db', c)
    {
      if c < |db.comments| {
        assert CommentRecorded(db, c);
        var k :| k in db.records && db.records[k].body.CommentDone? && db.records[k].body.commentId == c;
        assert k in db'.records;
      }
    }
  }

  lemma StepKeepsRecorded(db: Db, e: Event)
    requires Recorded(db) && Enabled(db, e)
    ensures Recorded(Apply(db, e))
  {
    if e.Handle? && (e.actor, e.key) !in db.records {
      var (mid, status, body) := Performed(db, e.actor, e.request, e.now);
      RecordedGrows(db, mid, (e.actor, e.key), Record(e.request, status, body));
    } else if e.Create? {
      var db' := Apply(db, e);
      assert db.history <= db'.history;
      forall k | k in db'.records ensures RecordMatches(db', k.0, db'.records[k]) {
        assert RecordMatches(db, k.0, db.records[k]);
      }
      assert forall h :: TransitionRecorded(db, h) ==> TransitionRecorded(db', h);
      assert forall c :: CommentRecorded(db, c) ==> CommentRecorded(db', c);
    }
  }

  // ---------------------------------------------------------------- the promises, over whole runs

  lemma {:induction false} WorkflowInvariant(ss: seq<Db>, es: seq<Event>, k: nat)
    requires Run(ss, es) && k < |ss|
    ensures Chains(ss[k]) && Audited(ss[k]) && Recorded(ss[k])
  {
    if k > 0 {
      WorkflowInvariant(ss, es, k - 1);
      assert StepOk(ss[k - 1], es[k - 1], ss[k]);
      StepKeepsChains(ss[k - 1], es[k - 1]);
      StepKeepsAudited(ss[k - 1], es[k - 1]);
      StepKeepsRecorded(ss[k - 1], es[k - 1]);
    } else {
      assert AuditedComments([]) == seq(0, i => i);
    }
  }

  // A completed outcome is never changed and never lost.
  lemma {:induction false} RecordsAreFinal(ss: seq<Db>, es: seq<Event>, i: nat, j: nat, k: (OperatorId, Key))
    requires Run(ss, es) && i <= j < |ss| && k in ss[i].records
    ensures k in ss[j].records && ss[j].records[k] == ss[i].records[k]
  {
    if i < j {
      RecordsAreFinal(ss, es, i, j - 1, k);
      assert StepOk(ss[j - 1], es[j - 1], ss[j]);
    }
  }

  // After any request with an operator's key, that key is spent for the rest of the run: the same
  // request gets the same status and body again, marked as a replay, every other request gets 409,
  // and neither changes anything. Transitions and comments share the keys.
  lemma KeysAreSpentOnce(ss: seq<Db>, es: seq<Event>, i: nat, j: nat)
    requires Run(ss, es) && i < j < |es| && es[i].Handle? && es[j].Handle?
    requires es[i].actor == es[j].actor && es[i].key == es[j].key
    ensures ss[j + 1] == ss[j]
    ensures var first := Answer(ss[i], es[i]); var again := Answer(ss[j], es[j]);
            if es[j].request == ss[i + 1].records[(es[i].actor, es[i].key)].request
            then
              && again.replayed
              && (first.body != KeyReused ==> again.httpStatus == first.httpStatus && again.body == first.body)
            else again == Outcome(409, KeyReused, false)
    ensures (es[i].actor, es[i].key) !in ss[i].records ==>
              && ss[i + 1].records[(es[i].actor, es[i].key)].request == es[i].request
              && Answer(ss[i], es[i]).body != KeyReused
  {
    assert StepOk(ss[i], es[i], ss[i + 1]) && StepOk(ss[j], es[j], ss[j + 1]);
    var k := (es[i].actor, es[i].key);
    assert k in ss[i + 1].records;
    RecordsAreFinal(ss, es, i + 1, j, k);
    WorkflowInvariant(ss, es, i + 1);
  }

  // An outcome other than 200 changes nothing but the record of the request.
  lemma FailuresOnlyRecord(db: Db, e: Event)
    requires Enabled(db, e) && e.Handle? && Answer(db, e).httpStatus != 200
    ensures Apply(db, e).(records := map[]) == db.(records := map[])
  {
  }

  lemma {:induction false} VersionsGrow(ss: seq<Db>, es: seq<Event>, i: nat, j: nat, id: IncidentId)
    requires Run(ss, es) && i <= j < |ss| && id in ss[i].incidents
    ensures id in ss[j].incidents && ss[j].incidents[id].lockVersion >= ss[i].incidents[id].lockVersion
  {
    if i < j {
      VersionsGrow(ss, es, i, j - 1, id);
      assert StepOk(ss[j - 1], es[j - 1], ss[j]);
    }
  }

  predicate FreshSuccess(db: Db, e: Event) {
    e.Handle? && Answer(db, e).httpStatus == 200 && !Answer(db, e).replayed
  }

  // Of all requests that expect the same version of an incident, at most one ever takes effect.
  lemma OneSuccessPerVersion(ss: seq<Db>, es: seq<Event>, i: nat, j: nat)
    requires Run(ss, es) && i < |es| && j < |es| && FreshSuccess(ss[i], es[i]) && FreshSuccess(ss[j], es[j])
    requires es[i].request.Transition? && es[j].request.Transition?
    requires es[i].request.incident == es[j].request.incident
    requires es[i].request.expectedVersion == es[j].request.expectedVersion
    ensures i == j
  {
    var a, b := if i < j then i else j, if i < j then j else i;
    if a < b {
      assert StepOk(ss[a], es[a], ss[a + 1]);
      VersionsGrow(ss, es, a + 1, b, es[a].request.incident);
    }
  }
}
