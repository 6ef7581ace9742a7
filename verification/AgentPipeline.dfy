/** The whole agent against an at-least-once network: collection, delivery, replies that get lost
    after the server has stored the batch, crashes, operator commands and cursor rebases, in any
    interleaving. Every event below is one transaction or one message. */
module AgentPipeline {
  import opened Prelude
  import opened Spool
  import opened Delivery
  import opened PoisonIsolation

  // A source record; `body` is what normalization makes of it, None for a record it ignores.
  datatype Record = Record(cursor: Cursor, body: Option<string>)

  function EventOf(r: Record): Event
    requires r.body.Some?
  {
    Event(IdOf(r.cursor), r.body.value)
  }

  // ---------------------------------------------------------------- collection

  datatype PersistResult = Skipped | Stored(result: EnqueueResult)

  function Persisted(s: State, source: Source, r: Record, now: int): (State, PersistResult) {
    if r.body.None? then
      if CursorFits(r.cursor) then (s.(cursors := s.cursors[source := r.cursor]), Skipped)
      else (s, Stored(CursorRejected))
    else
      var (s', result) := Enqueued(s, source, r.cursor, EventOf(r), now);
      (s', Stored(result))
  }

  // The record is accounted for: its cursor is committed in the spool.
  predicate Accepted(p: PersistResult) {
    p.Skipped? || p.result == Inserted || p.result == Duplicate
  }

  // What persisting a record does to the columns: an ignored record moves the cursor only, and a new event is
  // appended as a row that can be delivered at once.
  ghost predicate PersistMeans(s: State, s': State, source: Source, r: Record, now: int, p: PersistResult) {
    var fits := 1 <= |r.cursor| <= 4096;
    var known := exists row :: row in s.rows && row.event.id == IdOf(r.cursor);
    var n := |s.rows|;
    && s'.maxEvents == s.maxEvents
    && (p.Skipped? <==> r.body.None? && fits)
    && (p == Stored(Duplicate) <==> r.body.Some? && known && fits)
    && (p == Stored(Inserted) <==> r.body.Some? && !known && n < s.maxEvents && fits)
    && (p == Stored(SpoolFull) <==> r.body.Some? && !known && n >= s.maxEvents)
    && (p.Skipped? || p == Stored(Duplicate) ==> s'.rows == s.rows)
    && (p == Stored(Inserted) ==>
          && |s'.rows| == n + 1 && s'.rows[..n] == s.rows
          && IsNew(s'.rows[n], Event(IdOf(r.cursor), r.body.value), now) && IdOf(r.cursor) in PendingIds(s'.rows))
    && (if p == Stored(SpoolFull) || p == Stored(CursorRejected) then s' == s
        else s'.cursors == s.cursors[source := r.cursor])
  }

  lemma PersistIsMeant(s: State, source: Source, r: Record, now: int)
    ensures var (s', p) := Persisted(s, source, r, now); PersistMeans(s, s', source, r, now, p)
  {
    var (s', p) := Persisted(s, source, r, now);
    if p == Stored(Inserted) {
      assert s'.rows[|s.rows|] in s'.rows;
    }
  }

  // A row that one of these records has just put there.
  ghost predicate NewFrom(row: Row, records: seq<Record>, now: int) {
    exists r: Record :: r in records && r.body.Some? && IsNew(row, Event(IdOf(r.cursor), r.body.value), now)
  }

  // The rows that were there come first, and each row after them is new and comes from one of the records.
  ghost predicate Grown(rows: seq<Row>, rows': seq<Row>, records: seq<Record>, now: int) {
    rows <= rows' && forall j :: |rows| <= j < |rows'| ==> NewFrom(rows'[j], records, now)
  }

  lemma GrowsByOne(
    rows: seq<Row>, s: State, s': State, records: seq<Record>, source: Source, r: Record, now: int, p: PersistResult)
    requires Grown(rows, s.rows, records, now) && PersistMeans(s, s', source, r, now, p)
    ensures Grown(rows, s'.rows, records + [r], now)
  {
    if p == Stored(Inserted) {
      assert s.rows <= s'.rows;
    } else {
      assert s'.rows == s.rows by { assert p.Stored? ==> p.result != Inserted; }
    }
    forall j | |rows| <= j < |s'.rows|
      ensures NewFrom(s'.rows[j], records + [r], now)
    {
      if j < |s.rows| {
        assert s'.rows[j] == s.rows[j];
        var r0: Record :| r0 in records && r0.body.Some?
                          && IsNew(s.rows[j], Event(IdOf(r0.cursor), r0.body.value), now);
        assert r0 in records + [r];
      } else {
        assert r in records + [r];
      }
    }
  }

  class Collector {
    const spool: SQLiteSpool
    const source: Source

    constructor (spool: SQLiteSpool, source: Source)
      ensures this.spool == spool && this.source == source
    {
      this.spool, this.source := spool, source;
    }

    method PersistRecord(r: Record, now: int) returns (p: PersistResult)
      requires spool.Valid()
      modifies spool
      ensures spool.Valid() && (spool.state, p) == Persisted(old(spool.state), source, r, now)
      ensures PersistMeans(old(spool.state), spool.state, source, r, now, p)
    {
      PersistIsMeant(spool.state, source, r, now);
      if r.body.None? {
        var ok := spool.AdvanceCursor(source, r.cursor);
        return if ok then Skipped else Stored(CursorRejected);
      }
      var result := spool.EnqueueWithCursor(source, r.cursor, EventOf(r), now);
      return Stored(result);
    }

    // Persists records until the stop flag is seen, after `stop` of them, or the spool turns one away. The
    // `taken` records before are all safe in the spool, the cursor is that of the last one, and nothing
    // else moved.
    method DrainRecords(records: seq<Record>, stop: nat, now: int) returns (taken: nat)
      requires spool.Valid()
      modifies spool
      ensures spool.Valid() && taken <= |records|
      ensures forall k :: 0 <= k < taken && records[k].body.Some? ==> IdOf(records[k].cursor) in Ids(spool.state.rows)
      ensures spool.state.cursors == if taken == 0 then old(spool.state).cursors
                                     else old(spool.state).cursors[source := records[taken - 1].cursor]
      ensures Ids(old(spool.state).rows) <= Ids(spool.state.rows)
      ensures taken <= stop
      ensures Grown(old(spool.state).rows, spool.state.rows, records[..taken], now)
      ensures taken < |records| && taken < stop ==> !Accepted(Persisted(spool.state, source, records[taken], now).1)
    {
      taken := 0;
      while taken < |records| && taken < stop
        invariant spool.Valid() && taken <= |records| && taken <= stop
        invariant forall k :: 0 <= k < taken && records[k].body.Some? ==>
            IdOf(records[k].cursor) in Ids(spool.state.rows)
        invariant spool.state.cursors == if taken == 0 then old(spool.state).cursors
                                         else old(spool.state).cursors[source := records[taken - 1].cursor]
        invariant Ids(old(spool.state).rows) <= Ids(spool.state.rows)
        invariant Grown(old(spool.state).rows, spool.state.rows, records[..taken], now)
      {
        ghost var before := spool.state;
        PersistFacts(before, source, records[taken], now);
        var p := PersistRecord(records[taken], now);
        if !Accepted(p) {
          return;
        }
        assert records[..taken + 1] == records[..taken] + [records[taken]];
        GrowsByOne(old(spool.state).rows, before, spool.state, records[..taken], source, records[taken], now, p);
        taken := taken + 1;
      }
    }
  }

  // A record is taken together with its cursor, or nothing changes at all.
  lemma PersistFacts(s: State, source: Source, r: Record, now: int)
    ensures var (s', p) := Persisted(s, source, r, now);
            && Ids(s.rows) <= Ids(s'.rows) && s'.maxEvents == s.maxEvents
            && (DistinctIds(s.rows) ==> DistinctIds(s'.rows))
            && (|s.rows| <= s.maxEvents ==> |s'.rows| <= s.maxEvents)
            && (if Accepted(p)
                then s'.cursors == s.cursors[source := r.cursor] && (r.body.Some? ==> IdOf(r.cursor) in Ids(s'.rows))
                else s' == s)
            && (forall row | row in s'.rows && row !in s.rows ::
                  r.body.Some? && row.event == EventOf(r) && Accepted(p))
  {
    var (s', p) := Persisted(s, source, r, now);
    if s'.rows != s.rows {
      assert s'.rows[|s.rows|] in s'.rows;
      assert forall row :: row in s'.rows <==> row in s.rows || row == s'.rows[|s.rows|];
      if IdOf(r.cursor) !in Ids(s.rows) {
        assert forall row :: row in s.rows ==> row.event.id in Ids(s.rows);
      }
    }
  }

  // ---------------------------------------------------------------- replies

  // An HTTP reply: a status code and, when the body could be read, its two counters.
  datatype Reply = Lost | Reply(status: int, counts: Option<(int, int)>, retryAfter: Option<int>)

  function Classify(reply: Reply, sent: nat): TransportResult {
    match reply
    case Lost => TransportResult(NetworkError, None)
    case Reply(status, counts, retryAfter) =>
      if status == 200 then
        if counts.Some? && counts.value.0 >= 0 && counts.value.1 >= 0 && counts.value.0 + counts.value.1 == sent
        then TransportResult(Success, None) else TransportResult(ProtocolError, None)
      else if status == 401 then TransportResult(Authentication, None)
      else if status == 403 then TransportResult(Forbidden, None)
      else if status == 413 then TransportResult(PayloadTooLarge, None)
      else if status == 422 then TransportResult(Unprocessable, None)
      else if status == 429 then TransportResult(RateLimited, retryAfter)
      else if 500 <= status <= 599 then TransportResult(ServerError, None)
      else TransportResult(ProtocolError, None)
  }

  // The class of every reply, told from its status code.
  lemma ReplyClasses(reply: Reply, sent: nat)
    ensures var TransportResult(cls, retryAfter) := Classify(reply, sent);
            && (cls.NetworkError? <==> reply.Lost?)
            && (reply.Reply? ==>
                  var status := reply.status;
                  && (cls.Success? <==>
                        && status == 200 && reply.counts.Some? && reply.counts.value.0 >= 0
                        && reply.counts.value.1 >= 0 && reply.counts.value.0 + reply.counts.value.1 == sent)
                  && (cls.Authentication? <==> status == 401) && (cls.Forbidden? <==> status == 403)
                  && (cls.PayloadTooLarge? <==> status == 413) && (cls.Unprocessable? <==> status == 422)
                  && (cls.RateLimited? <==> status == 429) && (cls.ServerError? <==> 500 <= status < 600)
                  && (status == 429 ==> retryAfter == reply.retryAfter))
  {
  }

  // A server that keeps the ingestion contract reports a batch as fully accounted for only if it is.
  predicate HonestReply(reply: Reply, events: seq<Event>, server: map<EventId, Event>) {
    reply.Reply? && reply.status == 200 && reply.counts.Some?
    && reply.counts.value.0 >= 0 && reply.counts.value.1 >= 0
    && reply.counts.value.0 + reply.counts.value.1 == |events|
    ==> EventIds(events) <= server.Keys
  }

  // ---------------------------------------------------------------- the system

  datatype Phase = Quiet | InFlight(batch: seq<Row>) | Answered(batch: seq<Row>, result: TransportResult)

  // `server` maps stored ids to events and `log` lists the ids in the order they were stored; `wire`
  // holds every request ever sent; `committed` and `deleted` are the records whose cursor was
  // committed and the ids an operator deleted, over the whole run.
  datatype Pipeline = Pipeline(
    spool: State, size: nat, configured: nat, phase: Phase,
    wire: set<seq<Event>>, server: map<EventId, Event>, log: seq<EventId>,
    committed: set<(Source, Record)>, deleted: set<EventId>)

  datatype Step =
    | Collect(source: Source, record: Record, now: int)
    | Rebase(source: Source)
    | Send(batch: seq<Row>, rowids: seq<nat>, at: int)
    | Ingest(events: seq<Event>)
    | Receive(reply: Reply)
    | Settle(d: Delays, now: int)
    | Crash
    | RequeueEvent(id: EventId)
    | DeleteEvent(id: EventId)

  function Init(maxEvents: nat, configured: nat): Pipeline {
    Pipeline(State([], map[], maxEvents), configured, configured, Quiet, {}, map[], [], {}, {})
  }

  predicate Enabled(p: Pipeline, e: Step) {
    match e
    case Send(batch, rowids, at) => p.phase.Quiet? && 1 <= |batch| <= p.size
    case Ingest(events) => events in p.wire
    case Receive(reply) => p.phase.InFlight? && HonestReply(reply, Events(p.phase.batch), p.server)
    case Settle(_, _) => p.phase.Answered? && p.phase.batch != []
    case _ => true
  }

  // The due rows a delivery attempt may pick.
  ghost predicate Picks(p: Pipeline, e: Step) {
    e.Send? ==> OldestFirst(p.spool.rows, e.at, e.batch, e.rowids)
  }

  // Insert-if-absent, event by event.
  function Ingested(server: map<EventId, Event>, log: seq<EventId>, events: seq<Event>)
    : (map<EventId, Event>, seq<EventId>)
    decreases |events|
  {
    if events == [] then (server, log)
    else if events[0].id in server then Ingested(server, log, events[1..])
    else Ingested(server[events[0].id := events[0]], log + [events[0].id], events[1..])
  }

  function Apply(p: Pipeline, e: Step): Pipeline
    requires Enabled(p, e)
  {
    match e
    case Collect(source, record, now) =>
      var (spool, result) := Persisted(p.spool, source, record, now);
      p.(spool := spool, committed := if Accepted(result) then p.committed + {(source, record)} else p.committed)
    case Rebase(source) => p.(spool := p.spool.(cursors := p.spool.cursors - {source}))
    case Send(batch, _, _) => p.(phase := InFlight(batch), wire := p.wire + {Events(batch)})
    case Ingest(events) =>
      var (server, log) := Ingested(p.server, p.log, events);
      p.(server := server, log := log)
    case Receive(reply) => p.(phase := Answered(p.phase.batch, Classify(reply, |p.phase.batch|)))
    case Settle(d, now) =>
      var result := p.phase.result;
      p.(spool := p.spool.(rows := Settled(p.spool.rows, IdSeq(p.phase.batch), result, d, now)), phase := Quiet,
         size := NextBatchSize(p.size, p.configured, |p.phase.batch|, result.cls))
    case Crash => p.(phase := Quiet, size := p.configured)
    case RequeueEvent(id) => p.(spool := p.spool.(rows := Requeued(p.spool.rows, id)))
    case DeleteEvent(id) =>
      p.(spool := p.spool.(rows := Without(p.spool.rows, {id})), deleted := p.deleted + {id})
  }

  ghost predicate StepOk(p: Pipeline, e: Step, p': Pipeline) {
    Enabled(p, e) && Picks(p, e) && p' == Apply(p, e)
  }

  ghost predicate Run(ps: seq<Pipeline>, es: seq<Step>, maxEvents: nat, configured: nat) {
    && |ps| == |es| + 1 && ps[0] == Init(maxEvents, configured)
    && 1 <= maxEvents && 1 <= configured <= 100
    && forall k {:trigger es[k]} :: 0 <= k < |es| ==> StepOk(ps[k], es[k], ps[k + 1])
  }

  // ---------------------------------------------------------------- what every step keeps

  ghost predicate SpoolOk(p: Pipeline) {
    DistinctIds(p.spool.rows) && |p.spool.rows| <= p.spool.maxEvents
  }

  // An event is safe when it is in the spool, on the server, or was deleted on purpose.
  predicate Safe(p: Pipeline, id: EventId) {
    id in Ids(p.spool.rows) || id in p.server || id in p.deleted
  }

  ghost predicate AllSafe(p: Pipeline) {
    forall sr :: sr in p.committed && sr.1.body.Some? ==> Safe(p, IdOf(sr.1.cursor))
  }

  ghost predicate CursorsCommitted(p: Pipeline) {
    forall source :: source in p.spool.cursors ==>
      exists r: Record :: (source, r) in p.committed && r.cursor == p.spool.cursors[source]
  }

  // The event was made from a committed record.
  ghost predicate Genuine(p: Pipeline, e: Event) {
    exists sr :: sr in p.committed && sr.1.body.Some? && EventOf(sr.1) == e
  }

  ghost predicate AllGenuine(p: Pipeline) {
    && (forall r :: r in p.spool.rows ==> Genuine(p, r.event))
    && (forall events, e :: events in p.wire && e in events ==> Genuine(p, e))
    && (forall id :: id in p.server ==> p.server[id].id == id && Genuine(p, p.server[id]))
  }

  ghost predicate ServerOk(p: Pipeline) {
    && (forall i, j :: 0 <= i < j < |p.log| ==> p.log[i] != p.log[j])
    && (forall id :: id in p.log <==> id in p.server)
  }

  ghost predicate PhaseOk(p: Pipeline) {
    && (!p.phase.Quiet? ==> p.phase.batch != [])
    && (p.phase.Answered? && p.phase.result.cls.Success? ==> EventIds(Events(p.phase.batch)) <= p.server.Keys)
  }

  ghost predicate Inv(p: Pipeline) {
    SpoolOk(p) && AllSafe(p) && CursorsCommitted(p) && AllGenuine(p) && ServerOk(p) && PhaseOk(p)
  }

  // ---------------------------------------------------------------- one lemma per kind of change

  lemma {:induction false} IngestedFacts(server: map<EventId, Event>, log: seq<EventId>, events: seq<Event>)
    requires forall i, j :: 0 <= i < j < |log| ==> log[i] != log[j]
    requires forall id :: id in log <==> id in server
    ensures var (server', log') := Ingested(server, log, events);
            && (forall i, j :: 0 <= i < j < |log'| ==> log'[i] != log'[j])
            && (forall id :: id in log' <==> id in server')
            && server'.Keys == server.Keys + EventIds(events)
            && (forall id :: id in server ==> server'[id] == server[id])
            && (forall id :: id in server' && id !in server ==> server'[id] in events && server'[id].id == id)
            && log <= log'
    decreases |events|
  {
    if events != [] {
      var e, rest := events[0], events[1..];
      assert EventIds(events) == {e.id} + EventIds(rest) by {
        assert forall x :: x in events <==> x == e || x in rest;
      }
      if e.id in server {
        IngestedFacts(server, log, rest);
      } else {
        IngestedFacts(server[e.id := e], log + [e.id], rest);
      }
    }
  }

  lemma CollectKeeps(p: Pipeline, source: Source, record: Record, now: int)
    requires Inv(p)
    ensures Inv(Apply(p, Collect(source, record, now)))
  {
    var p' := Apply(p, Collect(source, record, now));
    PersistFacts(p.spool, source, record, now);
    assert p.committed <= p'.committed;
    forall e | Genuine(p, e) ensures Genuine(p', e) {
      var sr :| sr in p.committed && sr.1.body.Some? && EventOf(sr.1) == e;
      assert sr in p'.committed;
    }
    forall r | r in p'.spool.rows && r !in p.spool.rows ensures Genuine(p', r.event) {
      assert (source, record) in p'.committed;
    }
    forall s | s in p'.spool.cursors
      ensures exists r: Record :: (s, r) in p'.committed && r.cursor == p'.spool.cursors[s]
    {
      if s == source && p'.spool != p.spool {
        assert (source, record) in p'.committed;
      } else {
        assert s in p.spool.cursors;
        var r: Record :| (s, r) in p.committed && r.cursor == p.spool.cursors[s];
        assert (s, r) in p'.committed;
      }
    }
  }

  lemma IngestKeeps(p: Pipeline, events: seq<Event>)
    requires Inv(p) && events in p.wire
    ensures Inv(Apply(p, Ingest(events)))
  {
    IngestedFacts(p.server, p.log, events);
  }

  // Settling an answer deletes rows only for events the server already has.
  lemma SettleKeeps(p: Pipeline, d: Delays, now: int)
    requires Inv(p) && p.phase.Answered?
    ensures Inv(Apply(p, Settle(d, now)))
  {
    var p' := Apply(p, Settle(d, now));
    var ids := IdSeq(p.phase.batch);
    SettledIds(p.spool.rows, ids, p.phase.result, d, now);
    SettledEvents(p.spool.rows, ids, p.phase.result, d, now);
    forall id | id in ids ensures id in EventIds(Events(p.phase.batch)) {
      var k :| 0 <= k < |ids| && ids[k] == id;
      assert Events(p.phase.batch)[k].id == id;
    }
    forall r | r in p'.spool.rows ensures Genuine(p', r.event) {
      var r0 :| r0 in p.spool.rows && r0.event == r.event;
      assert Genuine(p, r0.event);
    }
  }

  lemma SettledEvents(rows: seq<Row>, ids: seq<EventId>, result: TransportResult, d: Delays, now: int)
    requires ids != [] && DistinctIds(rows)
    ensures var rows' := Settled(rows, ids, result, d, now);
            && DistinctIds(rows') && |rows'| <= |rows|
            && forall r :: r in rows' ==> exists r0 :: r0 in rows && r0.event == r.event
  {
    var rows' := Settled(rows, ids, result, d, now);
    if !result.cls.Success? {
      assert forall i :: 0 <= i < |rows| ==> rows'[i].event == rows[i].event;
    }
  }

  // A requeue keeps every event.
  lemma RequeuedRows(rows: seq<Row>, id: EventId)
    ensures var rows' := Requeued(rows, id);
            && Ids(rows') == Ids(rows)
            && (DistinctIds(rows) ==> DistinctIds(rows'))
            && (forall r :: r in rows' ==> exists r0 :: r0 in rows && r0.event == r.event)
  {
    var rows' := Requeued(rows, id);
    forall i | 0 <= i < |rows|
      ensures rows'[i].event == rows[i].event && rows[i].event.id in Ids(rows')
    {
      assert rows'[i] in rows';
    }
  }

  lemma OperatorKeeps(p: Pipeline, e: Step)
    requires Inv(p) && (e.RequeueEvent? || e.DeleteEvent?)
    ensures Inv(Apply(p, e))
  {
    var p' := Apply(p, e);
    if e.RequeueEvent? {
      RequeuedRows(p.spool.rows, e.id);
    }
    assert p'.committed == p.committed;
    forall x | Genuine(p, x) ensures Genuine(p', x) {}
  }

  lemma SendKeeps(p: Pipeline, e: Step)
    requires Inv(p) && e.Send? && Enabled(p, e) && Picks(p, e)
    ensures Inv(Apply(p, e))
  {
    forall x | x in Events(e.batch) ensures Genuine(p, x) {
      var k :| 0 <= k < |e.batch| && Events(e.batch)[k] == x;
      assert p.spool.rows[e.rowids[k]] in p.spool.rows;
    }
  }

  lemma StepKeepsInv(p: Pipeline, e: Step)
    requires Inv(p) && Enabled(p, e) && Picks(p, e)
    ensures Inv(Apply(p, e))
  {
    match e
    case Collect(source, record, now) => CollectKeeps(p, source, record, now);
    case Ingest(events) => IngestKeeps(p, events);
    case Settle(d, now) => SettleKeeps(p, d, now);
    case Send(_, _, _) => SendKeeps(p, e);
    case RequeueEvent(_) => OperatorKeeps(p, e);
    case DeleteEvent(_) => OperatorKeeps(p, e);
    case Receive(reply) =>
    case _ =>
  }

  lemma {:induction false} InvariantAt(ps: seq<Pipeline>, es: seq<Step>, maxEvents: nat, configured: nat, k: nat)
    requires Run(ps, es, maxEvents, configured) && k < |ps|
    ensures Inv(ps[k]) && ps[k].spool.maxEvents == maxEvents
  {
    if k > 0 {
      InvariantAt(ps, es, maxEvents, configured, k - 1);
      assert StepOk(ps[k - 1], es[k - 1], ps[k]);
      StepKeepsInv(ps[k - 1], es[k - 1]);
    }
  }

  lemma RunStep(ps: seq<Pipeline>, es: seq<Step>, maxEvents: nat, configured: nat, k: nat)
    requires Run(ps, es, maxEvents, configured) && k < |es|
    ensures Inv(ps[k]) && Enabled(ps[k], es[k]) && Picks(ps[k], es[k]) && ps[k + 1] == Apply(ps[k], es[k])
  {
    InvariantAt(ps, es, maxEvents, configured, k);
    assert StepOk(ps[k], es[k], ps[k + 1]);
  }

  // ---------------------------------------------------------------- the way of one batch

  // The row of an accepted new record is pending right after the step that took the record.
  lemma NewRecordIsPending(p: Pipeline, source: Source, record: Record, now: int)
    requires Inv(p) && record.body.Some? && 1 <= |record.cursor| <= 4096
    requires IdOf(record.cursor) !in Ids(p.spool.rows) && |p.spool.rows| < p.spool.maxEvents
    ensures var p' := Apply(p, Collect(source, record, now));
            && (source, record) in p'.committed && p'.spool.cursors == p.spool.cursors[source := record.cursor]
            && IdOf(record.cursor) in PendingIds(p'.spool.rows)
            && forall t :: t >= 0 ==> IdOf(record.cursor) in DueIds(p'.spool.rows, t)
  {
    PersistIsMeant(p.spool, source, record, now);
    var rows' := Apply(p, Collect(source, record, now)).spool.rows;
    assert rows'[|p.spool.rows|] in rows';
  }

  lemma BatchIsStored(server: map<EventId, Event>, log: seq<EventId>, batch: seq<Row>)
    requires forall i, j :: 0 <= i < j < |log| ==> log[i] != log[j]
    requires forall id :: id in log <==> id in server
    requires DistinctIds(batch)
    ensures var server' := Ingested(server, log, Events(batch)).0;
            && EventIds(Events(batch)) <= server'.Keys
            && forall k :: 0 <= k < |batch| ==>
                 var e := batch[k].event;
                 e.id in server' && server'[e.id] == if e.id in server then server[e.id] else e
  {
    IngestedFacts(server, log, Events(batch));
    var server' := Ingested(server, log, Events(batch)).0;
    forall k | 0 <= k < |batch|
      ensures batch[k].event.id in server'
      ensures batch[k].event.id !in server ==> server'[batch[k].event.id] == batch[k].event
    {
      assert Events(batch)[k] == batch[k].event && Events(batch)[k] in Events(batch);
      if batch[k].event.id !in server {
        var j :| 0 <= j < |batch| && Events(batch)[j] == server'[batch[k].event.id];
        assert batch[j].event.id == batch[k].event.id;
      }
    }
  }

  lemma AnswerIsSettled(p: Pipeline, reply: Reply, d: Delays, at: int)
    requires DistinctIds(p.spool.rows) && p.phase.InFlight? && p.phase.batch != []
    requires HonestReply(reply, Events(p.phase.batch), p.server)
    ensures var (batch, result) := (p.phase.batch, Classify(reply, |p.phase.batch|));
            var p' := Apply(Apply(p, Receive(reply)), Settle(d, at));
            && AnswerMeans(p.spool.rows, p'.spool.rows, Ids(batch), |batch|, result, d, at)
            && p' == p.(spool := p.spool.(rows := p'.spool.rows), phase := Quiet, size := p'.size)
            && p'.size == if result.cls.Success? then p.configured
                          else if reply.Reply? && reply.status in {413, 422} && |batch| > 1 then |batch| / 2
                          else p.size
  {
    SettledMeans(p.spool.rows, p.phase.batch, Classify(reply, |p.phase.batch|), d, at);
  }

  // A batch that is sent, stored and answered: the server holds every event of it, the rows are settled
  // as the answer demands, and the next batch can be sent.
  lemma BatchIsDelivered(p: Pipeline, batch: seq<Row>, rowids: seq<nat>, readAt: int, reply: Reply, d: Delays, at: int)
    requires Inv(p) && p.phase.Quiet? && 1 <= |batch| <= p.size && OldestFirst(p.spool.rows, readAt, batch, rowids)
    ensures var p1 := Apply(p, Send(batch, rowids, readAt));
            Enabled(p1, Ingest(Events(batch)))
            && var p2 := Apply(p1, Ingest(Events(batch)));
            Enabled(p2, Receive(reply))
            && var p3 := Apply(p2, Receive(reply));
            Enabled(p3, Settle(d, at))
            && var p4 := Apply(p3, Settle(d, at));
            && p4.phase.Quiet? && p4.spool == p.spool.(rows := p4.spool.rows)
            && p4.committed == p.committed && p4.deleted == p.deleted
            && AnswerMeans(p.spool.rows, p4.spool.rows, Ids(batch), |batch|, Classify(reply, |batch|), d, at)
            && p4.size == (if Classify(reply, |batch|).cls.Success? then p.configured
                           else if reply.Reply? && reply.status in {413, 422} && |batch| > 1 then |batch| / 2
                           else p.size)
            && forall k :: 0 <= k < |batch| ==>
                 var e := batch[k].event;
                 e.id in p4.server && p4.server[e.id] == if e.id in p.server then p.server[e.id] else e
  {
    var p1 := Apply(p, Send(batch, rowids, readAt));
    BatchIsStored(p.server, p.log, batch);
    AnswerIsSettled(Apply(p1, Ingest(Events(batch))), reply, d, at);
  }

  // What an operator, a rebase and a crash change, and that they change nothing else.
  lemma OtherStepsMean(p: Pipeline, id: EventId, source: Source)
    requires DistinctIds(p.spool.rows)
    ensures var p' := Apply(p, RequeueEvent(id));
            OnlyRequeued(p.spool.rows, p'.spool.rows, id) && p' == p.(spool := p.spool.(rows := p'.spool.rows))
    ensures var p' := Apply(p, DeleteEvent(id));
            && OnlyRemoved(p.spool.rows, p'.spool.rows, {id})
            && p' == p.(spool := p.spool.(rows := p'.spool.rows), deleted := p'.deleted)
            && forall other :: other in p'.deleted <==> other in p.deleted || other == id
    ensures var p' := Apply(p, Rebase(source));
            && p' == p.(spool := p.spool.(cursors := p'.spool.cursors)) && source !in p'.spool.cursors
            && forall other | other != source ::
                 && (other in p.spool.cursors <==> other in p'.spool.cursors)
                 && (other in p.spool.cursors ==> p'.spool.cursors[other] == p.spool.cursors[other])
    ensures Apply(p, Crash) == p.(phase := Quiet, size := p.configured)
  {
    WithoutMeans(p.spool.rows, {id});
  }

  // ---------------------------------------------------------------- the promises, over whole runs

  // No loss with exactly-once effect, in every reachable state: every record whose cursor was
  // committed and that yields an event is in the spool, on the server, or was deleted on purpose; the
  // server stored each event at most once and only events of committed records; the spool stays
  // within its bound; and every saved cursor is that of a committed record.
  lemma NoLossExactlyOnce(ps: seq<Pipeline>, es: seq<Step>, maxEvents: nat, configured: nat, k: nat)
    requires Run(ps, es, maxEvents, configured) && k < |ps|
    ensures var p := ps[k];
            && (forall sr :: sr in p.committed && sr.1.body.Some? ==> Safe(p, IdOf(sr.1.cursor)))
            && (forall id :: multiset(p.log)[id] == (if id in p.server then 1 else 0))
            && (forall id :: id in p.server ==> Genuine(p, p.server[id]))
            && |p.spool.rows| <= maxEvents
            && CursorsCommitted(p)
  {
    InvariantAt(ps, es, maxEvents, configured, k);
    DistinctMultiset(ps[k].log);
  }

  lemma {:induction false} DistinctMultiset(log: seq<EventId>)
    requires forall i, j :: 0 <= i < j < |log| ==> log[i] != log[j]
    ensures forall id :: multiset(log)[id] == (if id in log then 1 else 0)
  {
    if log != [] {
      var rest := log[..|log| - 1];
      DistinctMultiset(rest);
      assert log == rest + [log[|log| - 1]];
    }
  }

  // What the server has stored under an id never changes and never disappears.
  lemma {:induction false} StoredForever(ps: seq<Pipeline>, es: seq<Step>, maxEvents: nat, configured: nat,
                                         i: nat, j: nat, id: EventId)
    requires Run(ps, es, maxEvents, configured) && i <= j < |ps| && id in ps[i].server
    ensures id in ps[j].server && ps[j].server[id] == ps[i].server[id]
  {
    if i < j {
      StoredForever(ps, es, maxEvents, configured, i, j - 1, id);
      var p, e := ps[j - 1], es[j - 1];
      assert StepOk(p, e, ps[j]);
      if e.Ingest? {
        InvariantAt(ps, es, maxEvents, configured, j - 1);
        IngestedFacts(p.server, p.log, e.events);
      }
    }
  }

  // A row leaves the spool only when the server has its event or an operator deletes it.
  lemma LeavesOnlyWhenSafe(ps: seq<Pipeline>, es: seq<Step>, maxEvents: nat, configured: nat, k: nat, id: EventId)
    requires Run(ps, es, maxEvents, configured) && k < |es|
    requires id in Ids(ps[k].spool.rows) && id !in Ids(ps[k + 1].spool.rows)
    ensures es[k] == DeleteEvent(id) || (es[k].Settle? && id in ps[k].server)
  {
    InvariantAt(ps, es, maxEvents, configured, k);
    var p, e := ps[k], es[k];
    assert StepOk(p, e, ps[k + 1]);
    match e
    case Collect(source, record, now) => PersistFacts(p.spool, source, record, now);
    case Settle(d, now) =>
      var ids := IdSeq(p.phase.batch);
      SettledIds(p.spool.rows, ids, p.phase.result, d, now);
      var i :| 0 <= i < |ids| && ids[i] == id;
      assert Events(p.phase.batch)[i].id == id;
    case RequeueEvent(other) => RequeuedRows(p.spool.rows, other);
    case DeleteEvent(other) =>
    case _ =>
  }

  // A full spool never moves a cursor for a new event: the whole spool is as before, and collection
  // can take up the same record later. A record that needs no room still moves its cursor.
  lemma FullSpoolHoldsCursor(p: Pipeline, source: Source, record: Record, now: int)
    requires |p.spool.rows| == p.spool.maxEvents && CursorFits(record.cursor)
    ensures var p' := Apply(p, Collect(source, record, now));
            var fits := record.body.None? || IdOf(record.cursor) in Ids(p.spool.rows);
            && p'.spool.rows == p.spool.rows
            && (!fits ==> p' == p)
            && (fits ==> p'.spool.cursors == p.spool.cursors[source := record.cursor]
                         && p'.committed == p.committed + {(source, record)})
  {
  }
}
