/** What "no loss" of the agent pipeline means for events rather than ids, exactly when it holds, and what
    becomes of further occurrences of a record. */
module EventLoss {
  import opened Prelude
  import opened Spool
  import opened Delivery
  import opened AgentPipeline

  // The record's own event is in the spool or on the server, or its id was deleted on purpose.
  predicate EventSafe(p: Pipeline, r: Record)
    requires r.body.Some?
  {
    || (exists row :: row in p.spool.rows && row.event == EventOf(r))
    || (IdOf(r.cursor) in p.server && p.server[IdOf(r.cursor)] == EventOf(r))
    || IdOf(r.cursor) in p.deleted
  }

  // Records that share a cursor make the same event.
  ghost predicate Unambiguous(records: iset<Record>) {
    forall a, b | a in records && b in records && SameId(a, b) :: a.body == b.body
  }

  predicate SameId(a: Record, b: Record) {
    a.body.Some? && b.body.Some? && a.cursor == b.cursor && CursorFits(a.cursor)
  }

  ghost predicate CollectsFrom(es: seq<Step>, records: iset<Record>) {
    forall k :: 0 <= k < |es| && es[k].Collect? ==> es[k].record in records
  }

  // In every run over these records, every committed event is safe all the time.
  ghost predicate NeverLosesEvents(records: iset<Record>, maxEvents: nat, configured: nat) {
    forall ps: seq<Pipeline>, es: seq<Step>, k: nat
      | Run(ps, es, maxEvents, configured) && CollectsFrom(es, records) && k < |ps| :: AllEventsSafe(ps[k])
  }

  ghost predicate AllEventsSafe(p: Pipeline) {
    forall sr :: sr in p.committed && sr.1.body.Some? ==> EventSafe(p, sr.1)
  }

  lemma {:induction false} CommittedFrom(
    ps: seq<Pipeline>, es: seq<Step>, records: iset<Record>, maxEvents: nat, configured: nat, k: nat)
    requires Run(ps, es, maxEvents, configured) && CollectsFrom(es, records) && k < |ps|
    ensures forall sr :: sr in ps[k].committed ==> sr.1 in records
  {
    if k > 0 {
      CommittedFrom(ps, es, records, maxEvents, configured, k - 1);
      assert StepOk(ps[k - 1], es[k - 1], ps[k]);
    }
  }

  // Committed records that share a cursor made the same event.
  predicate UnambiguousSoFar(p: Pipeline) {
    forall a, b :: a in p.committed && b in p.committed && SameId(a.1, b.1) ==> a.1.body == b.1.body
  }

  lemma {:induction false} CommittedFit(
    ps: seq<Pipeline>, es: seq<Step>, maxEvents: nat, configured: nat, k: nat)
    requires Run(ps, es, maxEvents, configured) && k < |ps|
    ensures forall sr :: sr in ps[k].committed ==> CursorFits(sr.1.cursor)
  {
    if k > 0 {
      CommittedFit(ps, es, maxEvents, configured, k - 1);
      assert StepOk(ps[k - 1], es[k - 1], ps[k]);
    }
  }

  lemma EventsAreSafe(p: Pipeline)
    requires Inv(p) && UnambiguousSoFar(p)
    requires forall sr :: sr in p.committed ==> CursorFits(sr.1.cursor)
    ensures AllEventsSafe(p)
  {
    forall sr | sr in p.committed && sr.1.body.Some?
      ensures EventSafe(p, sr.1)
    {
      var id := IdOf(sr.1.cursor);
      assert Safe(p, id);
      if id in Ids(p.spool.rows) {
        var row :| row in p.spool.rows && row.event.id == id;
        SameEvent(p, sr, row.event);
      } else if id in p.server {
        SameEvent(p, sr, p.server[id]);
      }
    }
  }

  lemma SameEvent(p: Pipeline, sr: (Source, Record), e: Event)
    requires sr in p.committed && sr.1.body.Some? && Genuine(p, e) && e.id == IdOf(sr.1.cursor)
    requires UnambiguousSoFar(p) && CursorFits(sr.1.cursor)
    ensures e == EventOf(sr.1)
  {
    var other :| other in p.committed && other.1.body.Some? && EventOf(other.1) == e;
    assert SameId(sr.1, other.1);
  }

  // Two records with one cursor and different events: the second is committed, and nowhere.
  lemma SecondEventIsLost(a: Record, b: Record, source: Source, maxEvents: nat, configured: nat)
    returns (ps: seq<Pipeline>, es: seq<Step>)
    requires SameId(a, b) && a.body != b.body && 1 <= maxEvents && 1 <= configured <= 100
    ensures Run(ps, es, maxEvents, configured) && |ps| == 3 && es == [Collect(source, a, 0), Collect(source, b, 0)]
    ensures (source, b) in ps[2].committed && !EventSafe(ps[2], b)
  {
    es := [Collect(source, a, 0), Collect(source, b, 0)];
    var p0 := Init(maxEvents, configured);
    var p1 := Apply(p0, es[0]);
    var rows := [Row(EventOf(a), 0, 0, 0, Pending, None)];
    assert p1.spool.rows == rows && rows[0] in rows;
    ps := [p0, p1, Apply(p1, es[1])];
    assert ps[2].spool.rows == rows;
  }

  // No event is ever lost if and only if no two records of the sources share a cursor with different
  // events, whatever the interleaving, the spool size and the batch size.
  lemma LossExactlyWhenAmbiguous(records: iset<Record>, maxEvents: nat, configured: nat)
    requires 1 <= maxEvents && 1 <= configured <= 100
    ensures NeverLosesEvents(records, maxEvents, configured) <==> Unambiguous(records)
  {
    if Unambiguous(records) {
      forall ps: seq<Pipeline>, es: seq<Step>, k: nat
        | Run(ps, es, maxEvents, configured) && CollectsFrom(es, records) && k < |ps|
        ensures AllEventsSafe(ps[k])
      {
        InvariantAt(ps, es, maxEvents, configured, k);
        CommittedFrom(ps, es, records, maxEvents, configured, k);
        CommittedFit(ps, es, maxEvents, configured, k);
        EventsAreSafe(ps[k]);
      }
    } else {
      var a, b :| a in records && b in records && SameId(a, b) && a.body != b.body;
      var ps, es := SecondEventIsLost(a, b, "", maxEvents, configured);
      assert CollectsFrom(es, records);
      assert !AllEventsSafe(ps[2]);
    }
  }

  // ---------------------------------------------------------------- how an event is dropped

  // A spool row with the id of the record but another event.
  predicate Occupied(p: Pipeline, id: EventId, e: Event) {
    id in Ids(p.spool.rows) && forall row :: row in p.spool.rows && row.event.id == id ==> row.event != e
  }

  // A record whose id is in the spool with another event is committed and not stored.
  lemma OccupiedIdIsDropped(p: Pipeline, source: Source, r: Record, now: int)
    requires r.body.Some? && CursorFits(r.cursor) && Occupied(p, IdOf(r.cursor), EventOf(r))
    ensures var p' := Apply(p, Collect(source, r, now));
            && p'.spool.rows == p.spool.rows && (source, r) in p'.committed
            && !exists row :: row in p'.spool.rows && row.event == EventOf(r)
  {
  }

  // It stays out of the spool for as long as the other event's row remains.
  lemma {:induction false} OccupiedStays(
    ps: seq<Pipeline>, es: seq<Step>, maxEvents: nat, configured: nat, i: nat, j: nat, id: EventId, e: Event)
    requires Run(ps, es, maxEvents, configured) && i <= j < |ps| && e.id == id
    requires Occupied(ps[i], id, e) && forall k :: i <= k <= j ==> id in Ids(ps[k].spool.rows)
    ensures Occupied(ps[j], id, e)
  {
    if i < j {
      OccupiedStays(ps, es, maxEvents, configured, i, j - 1, id, e);
      assert id in Ids(ps[j].spool.rows);
      OccupiedNext(ps, es, maxEvents, configured, j - 1, id, e);
    }
  }

  lemma OccupiedNext(
    ps: seq<Pipeline>, es: seq<Step>, maxEvents: nat, configured: nat, k: nat, id: EventId, e: Event)
    requires Run(ps, es, maxEvents, configured) && k < |es| && e.id == id
    requires Occupied(ps[k], id, e) && id in Ids(ps[k + 1].spool.rows)
    ensures Occupied(ps[k + 1], id, e)
  {
    assert DistinctIds(ps[k].spool.rows) by { InvariantAt(ps, es, maxEvents, configured, k); }
    assert StepOk(ps[k], es[k], ps[k + 1]);
    StaysOccupied(ps[k], es[k], id, e);
  }

  lemma StaysOccupied(p: Pipeline, s: Step, id: EventId, e: Event)
    requires DistinctIds(p.spool.rows) && Enabled(p, s) && e.id == id
    requires Occupied(p, id, e) && id in Ids(Apply(p, s).spool.rows)
    ensures Occupied(Apply(p, s), id, e)
  {
    StepKeepsRowEvents(p, s, id);
    forall row | row in Apply(p, s).spool.rows && row.event.id == id
      ensures row.event != e
    {
      var r0 :| r0 in p.spool.rows && r0.event == row.event;
    }
  }

  // While an id stays in the spool its event does not change.
  lemma StepKeepsRowEvents(p: Pipeline, s: Step, id: EventId)
    requires DistinctIds(p.spool.rows) && Enabled(p, s) && id in Ids(p.spool.rows)
    ensures forall row | row in Apply(p, s).spool.rows && row.event.id == id ::
              exists r0 :: r0 in p.spool.rows && r0.event == row.event
  {
    match s
    case Collect(source, record, now) => PersistFacts(p.spool, source, record, now);
    case Settle(d, now) => SettledEvents(p.spool.rows, IdSeq(p.phase.batch), p.phase.result, d, now);
    case RequeueEvent(other) => RequeuedRows(p.spool.rows, other);
    case _ =>
  }

  // Once the server has another event under the id, the record's own event never gets there.
  lemma StoredOtherwiseIsLost(
    ps: seq<Pipeline>, es: seq<Step>, maxEvents: nat, configured: nat, i: nat, j: nat, r: Record)
    requires Run(ps, es, maxEvents, configured) && i <= j < |ps| && r.body.Some?
    requires IdOf(r.cursor) in ps[i].server && ps[i].server[IdOf(r.cursor)] != EventOf(r)
    ensures IdOf(r.cursor) in ps[j].server && ps[j].server[IdOf(r.cursor)] != EventOf(r)
  {
    StoredForever(ps, es, maxEvents, configured, i, j, IdOf(r.cursor));
  }

  // ---------------------------------------------------------------- further occurrences of a cursor

  predicate Occurs(p: Pipeline, s: Step, cursor: Cursor) {
    && s.Collect? && s.record.cursor == cursor && s.record.body.Some?
    && Accepted(Persisted(p.spool, s.source, s.record, s.now).1)
  }

  // How often a record with this cursor that makes an event was committed in the first n steps. Each time
  // the original makes an event with times of its own, even where the bodies here are equal.
  function Occurrences(ps: seq<Pipeline>, es: seq<Step>, cursor: Cursor, n: nat): nat
    requires n <= |es| && |ps| == |es| + 1
  {
    if n == 0 then 0
    else Occurrences(ps, es, cursor, n - 1) + (if Occurs(ps[n - 1], es[n - 1], cursor) then 1 else 0)
  }

  predicate CommittedWith(p: Pipeline, cursor: Cursor) {
    exists sr :: sr in p.committed && sr.1.body.Some? && sr.1.cursor == cursor
  }

  lemma {:induction false} OccurredMeansCommitted(
    ps: seq<Pipeline>, es: seq<Step>, maxEvents: nat, configured: nat, cursor: Cursor, n: nat)
    requires Run(ps, es, maxEvents, configured) && n <= |es|
    ensures Occurrences(ps, es, cursor, n) > 0 <==> CommittedWith(ps[n], cursor)
  {
    if n > 0 {
      OccurredMeansCommitted(ps, es, maxEvents, configured, cursor, n - 1);
      assert StepOk(ps[n - 1], es[n - 1], ps[n]);
      OccurrenceStep(ps[n - 1], es[n - 1], cursor);
    }
  }

  lemma OccurrenceStep(p: Pipeline, s: Step, cursor: Cursor)
    requires Enabled(p, s)
    ensures CommittedWith(Apply(p, s), cursor) <==> CommittedWith(p, cursor) || Occurs(p, s, cursor)
  {
    var p' := Apply(p, s);
    if Occurs(p, s, cursor) {
      assert (s.source, s.record) in p'.committed;
    }
    assert p.committed <= p'.committed;
  }

  // However often a cursor is committed, the server stores at most one event for it; and once nothing of it
  // is left in the spool and it was not deleted, exactly one. So the occurrences of a cursor are all stored
  // if and only if there is at most one.
  lemma OnlyOneOccurrenceIsStored(
    ps: seq<Pipeline>, es: seq<Step>, maxEvents: nat, configured: nat, cursor: Cursor, n: nat)
    requires Run(ps, es, maxEvents, configured) && n <= |es|
    ensures var (stored, occurred) := (multiset(ps[n].log)[IdOf(cursor)], Occurrences(ps, es, cursor, n));
            && stored <= 1 && stored <= occurred
            && (IdOf(cursor) !in Ids(ps[n].spool.rows) && IdOf(cursor) !in ps[n].deleted ==>
                  && stored == (if occurred > 0 then 1 else 0)
                  && (stored == occurred <==> occurred <= 1))
  {
    NoLossExactlyOnce(ps, es, maxEvents, configured, n);
    InvariantAt(ps, es, maxEvents, configured, n);
    OccurredMeansCommitted(ps, es, maxEvents, configured, cursor, n);
    OccurredIsStored(ps[n], cursor);
  }

  lemma OccurredIsStored(p: Pipeline, cursor: Cursor)
    requires Inv(p)
    ensures IdOf(cursor) in p.server ==> CommittedWith(p, cursor)
    ensures CommittedWith(p, cursor) ==> Safe(p, IdOf(cursor))
  {
    if IdOf(cursor) in p.server {
      var sr :| sr in p.committed && sr.1.body.Some? && EventOf(sr.1) == p.server[IdOf(cursor)];
    }
  }
}
