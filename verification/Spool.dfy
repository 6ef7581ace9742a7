/** The agent's durable spool: queued events in insertion order, one cursor per source.
    An event's id is a fixed injective function of the cursor of the record it came from.
    Instants are whole microseconds. */
module Spool {
  import opened Prelude

  type Cursor = string
  type Source = string

  datatype EventId = IdOf(cursor: Cursor)

  datatype Event = Event(id: EventId, body: string)

  datatype RowStatus = Pending | Quarantined | Oversized

  datatype Row = Row(event: Event, enqueuedAt: int, attempts: nat, nextAttemptAt: int, status: RowStatus,
                     lastError: Option<string>)

  datatype EnqueueResult = Inserted | Duplicate | SpoolFull | CursorRejected

  const MAX_CURSOR := 4096

  // `rows` is in rowid order: an insert always takes a rowid above every row still present.
  datatype State = State(rows: seq<Row>, cursors: map<Source, Cursor>, maxEvents: nat)

  // ---------------------------------------------------------------- views of the rows

  function Ids(rows: seq<Row>): set<EventId> {
    set r | r in rows :: r.event.id
  }

  predicate DistinctIds(rows: seq<Row>) {
    forall i, j :: 0 <= i < j < |rows| ==> rows[i].event.id != rows[j].event.id
  }

  predicate Due(r: Row, now: int) {
    r.status == Pending && r.nextAttemptAt <= now
  }

  function DueIds(rows: seq<Row>, now: int): set<EventId> {
    set r | r in rows && Due(r, now) :: r.event.id
  }

  function PendingIds(rows: seq<Row>): set<EventId> {
    set r | r in rows && r.status == Pending :: r.event.id
  }

  function EventIds(events: seq<Event>): set<EventId> {
    set e | e in events :: e.id
  }

  // ---------------------------------------------------------------- the statements

  function CursorFits(c: Cursor): bool {
    1 <= |c| <= MAX_CURSOR
  }

  function Enqueued(s: State, source: Source, cursor: Cursor, event: Event, now: int): (State, EnqueueResult) {
    if event.id in Ids(s.rows) then
      if CursorFits(cursor) then (s.(cursors := s.cursors[source := cursor]), Duplicate) else (s, CursorRejected)
    else if |s.rows| >= s.maxEvents then (s, SpoolFull)
    else if !CursorFits(cursor) then (s, CursorRejected)
    else (s.(rows := s.rows + [Row(event, now, 0, 0, Pending, None)], cursors := s.cursors[source := cursor]), Inserted)
  }

  function Without(rows: seq<Row>, ids: set<EventId>): (kept: seq<Row>)
    ensures forall r :: r in kept <==> r in rows && r.event.id !in ids
    ensures |kept| <= |rows|
    ensures DistinctIds(rows) ==> DistinctIds(kept)
  {
    if rows == [] then []
    else
      var rest := Without(rows[1..], ids);
      if rows[0].event.id in ids then rest else [rows[0]] + rest
  }

  function DeferredRow(r: Row, ids: set<EventId>, next: int, error: string): Row {
    if r.event.id in ids && r.status == Pending
    then r.(attempts := r.attempts + 1, nextAttemptAt := next, lastError := Some(error)) else r
  }

  function Deferred(rows: seq<Row>, ids: set<EventId>, next: int, error: string): seq<Row> {
    seq(|rows|, i requires 0 <= i < |rows| => DeferredRow(rows[i], ids, next, error))
  }

  function SetAsideRow(r: Row, id: EventId, status: RowStatus, error: string): Row {
    if r.event.id == id && r.status == Pending
    then r.(attempts := r.attempts + 1, status := status, lastError := Some(error)) else r
  }

  function SetAside(rows: seq<Row>, id: EventId, status: RowStatus, error: string): seq<Row> {
    seq(|rows|, i requires 0 <= i < |rows| => SetAsideRow(rows[i], id, status, error))
  }

  function RequeuedRow(r: Row, id: EventId): Row {
    if r.event.id == id && r.status != Pending
    then r.(status := Pending, attempts := 0, nextAttemptAt := 0, lastError := None) else r
  }

  function Requeued(rows: seq<Row>, id: EventId): seq<Row> {
    seq(|rows|, i requires 0 <= i < |rows| => RequeuedRow(rows[i], id))
  }

  // ---------------------------------------------------------------- delivery order

  predicate Older(rows: seq<Row>, i: nat, j: nat)
    requires i < |rows| && j < |rows|
  {
    rows[i].enqueuedAt < rows[j].enqueuedAt || (rows[i].enqueuedAt == rows[j].enqueuedAt && i < j)
  }

  // The batch is made of the due rows `rowids`, in delivery order, and every due row left out comes
  // after all of them.
  ghost predicate OldestFirst(rows: seq<Row>, now: int, batch: seq<Row>, rowids: seq<nat>) {
    && |batch| == |rowids|
    && (forall k :: 0 <= k < |batch| ==>
          rowids[k] < |rows| && batch[k] == rows[rowids[k]] && Due(batch[k], now))
    && (forall k, m :: 0 <= k < m < |rowids| ==> Older(rows, rowids[k], rowids[m]))
    && (forall j: nat, k | j < |rows| && Due(rows[j], now) && rows[j].event.id !in Ids(batch) && 0 <= k < |rowids|
          :: Older(rows, rowids[k], j))
    && DistinctIds(batch)
  }

  lemma OldestFirstExtends(rows: seq<Row>, now: int, batch: seq<Row>, rowids: seq<nat>, best: nat)
    requires OldestFirst(rows, now, batch, rowids)
    requires best < |rows| && Due(rows[best], now) && rows[best].event.id !in Ids(batch)
    requires forall j: nat | j < |rows| && j != best && Due(rows[j], now) && rows[j].event.id !in Ids(batch)
               :: Older(rows, best, j)
    ensures OldestFirst(rows, now, batch + [rows[best]], rowids + [best])
  {
    var b := batch + [rows[best]];
    assert Ids(b) == Ids(batch) + {rows[best].event.id} by {
      assert forall r :: r in b <==> r in batch || r == rows[best];
    }
    forall i, j | 0 <= i < j < |b|
      ensures b[i].event.id != b[j].event.id
    {
      if j == |batch| { assert batch[i] in batch; }
    }
  }

  lemma {:induction false} DistinctCount(rows: seq<Row>)
    requires DistinctIds(rows)
    ensures |Ids(rows)| == |rows|
  {
    if rows != [] {
      var rest := rows[..|rows| - 1];
      DistinctCount(rest);
      assert Ids(rows) == Ids(rest) + {rows[|rows| - 1].event.id} by {
        assert forall r :: r in rows <==> r in rest || r == rows[|rows| - 1];
      }
    }
  }

  // A batch is as long as the set of due events it covers.
  lemma BatchSize(rows: seq<Row>, now: int, batch: seq<Row>, rowids: seq<nat>)
    requires OldestFirst(rows, now, batch, rowids)
    ensures Ids(batch) <= DueIds(rows, now) && |batch| == |Ids(batch)| <= |DueIds(rows, now)|
    ensures DueIds(rows, now) <= Ids(batch) ==> |batch| == |DueIds(rows, now)|
  {
    DistinctCount(batch);
    forall id | id in Ids(batch)
      ensures id in DueIds(rows, now)
    {
      var k :| 0 <= k < |batch| && batch[k].event.id == id;
      assert rows[rowids[k]] in rows;
    }
    SubsetSize(Ids(batch), DueIds(rows, now));
    if DueIds(rows, now) <= Ids(batch) {
      assert DueIds(rows, now) == Ids(batch);
    }
  }

  // A requeue keeps every event and makes exactly the row it names pending again.
  lemma RequeuedPending(rows: seq<Row>, id: EventId)
    requires id in Ids(rows)
    ensures Ids(Requeued(rows, id)) == Ids(rows) && PendingIds(Requeued(rows, id)) == PendingIds(rows) + {id}
  {
    var rows' := Requeued(rows, id);
    forall i | 0 <= i < |rows| && (rows[i].status == Pending || rows[i].event.id == id)
      ensures rows[i].event.id in PendingIds(rows')
    {
      assert rows'[i] in rows' && rows'[i].event == rows[i].event;
    }
    forall i | 0 <= i < |rows|
      ensures rows[i].event.id in Ids(rows')
    {
      assert rows'[i] in rows';
    }
    forall x | x in PendingIds(rows') ensures x in PendingIds(rows) + {id} {
      var i :| 0 <= i < |rows'| && rows'[i].event.id == x && rows'[i].status == Pending;
      assert rows[i] in rows;
    }
  }

  // An event that is set aside is not pending as well.
  lemma OnlyOneRow(rows: seq<Row>, id: EventId)
    requires DistinctIds(rows) && exists r :: r in rows && r.event.id == id && r.status != Pending
    ensures id in Ids(rows) - PendingIds(rows)
  {
  }

  // ---------------------------------------------------------------- what the statements mean, column by column

  // A row that was just inserted: it can be delivered at once.
  ghost predicate IsNew(r: Row, event: Event, now: int) {
    && r.event == event && r.enqueuedAt == now && r.attempts == 0 && r.status == Pending && r.lastError == None
    && forall t :: t >= 0 ==> Due(r, t)
  }

  // One more attempt; the row stays pending and is due again exactly from `from` on.
  ghost predicate IsDeferred(r: Row, r': Row, from: int, error: string) {
    && r'.event == r.event && r'.enqueuedAt == r.enqueuedAt && r'.attempts == r.attempts + 1 && r'.status == Pending
    && r'.lastError == Some(error) && r'.nextAttemptAt == from && forall t :: Due(r', t) <==> from <= t
  }

  // One more attempt, and the row is not delivered any more.
  ghost predicate IsSetAside(r: Row, r': Row, status: RowStatus, error: string) {
    && r'.event == r.event && r'.enqueuedAt == r.enqueuedAt && r'.attempts == r.attempts + 1 && r'.status == status
    && r'.lastError == Some(error) && r'.nextAttemptAt == r.nextAttemptAt
    && (status != Pending ==> forall t :: !Due(r', t))
  }

  ghost predicate IsRequeued(r: Row, r': Row) {
    && r'.event == r.event && r'.enqueuedAt == r.enqueuedAt && r'.attempts == 0 && r'.status == Pending
    && r'.lastError == None && forall t :: t >= 0 ==> Due(r', t)
  }

  // The pending rows of these events are deferred, and no other row changes.
  ghost predicate OnlyDeferred(rows: seq<Row>, rows': seq<Row>, ids: set<EventId>, from: int, error: string) {
    && |rows'| == |rows|
    && forall i | 0 <= i < |rows| ::
         if rows[i].event.id in ids && rows[i].status == Pending then IsDeferred(rows[i], rows'[i], from, error)
         else rows'[i] == rows[i]
  }

  // The pending row of this event is set aside, and no other row changes.
  ghost predicate OnlySetAside(rows: seq<Row>, rows': seq<Row>, id: EventId, status: RowStatus, error: string) {
    && |rows'| == |rows|
    && forall i | 0 <= i < |rows| ::
         if rows[i].event.id == id && rows[i].status == Pending then IsSetAside(rows[i], rows'[i], status, error)
         else rows'[i] == rows[i]
  }

  ghost predicate OnlyRequeued(rows: seq<Row>, rows': seq<Row>, id: EventId) {
    && |rows'| == |rows|
    && forall i | 0 <= i < |rows| ::
         if rows[i].event.id == id && rows[i].status != Pending then IsRequeued(rows[i], rows'[i])
         else rows'[i] == rows[i]
  }

  lemma DeferredMeans(rows: seq<Row>, ids: set<EventId>, from: int, error: string)
    ensures OnlyDeferred(rows, Deferred(rows, ids, from, error), ids, from, error)
  {
  }

  lemma SetAsideMeans(rows: seq<Row>, id: EventId, status: RowStatus, error: string)
    ensures OnlySetAside(rows, SetAside(rows, id, status, error), id, status, error)
  {
  }

  // Exactly the rows of these events are gone, and the others are in their order.
  ghost predicate OnlyRemoved(rows: seq<Row>, rows': seq<Row>, ids: set<EventId>) {
    && (forall r :: r in rows' <==> r in rows && r.event.id !in ids)
    && InOrder(rows, rows')
  }

  ghost predicate InOrder(rows: seq<Row>, kept: seq<Row>) {
    forall p, q :: 0 <= p < q < |kept| ==> Earlier(rows, kept[p], kept[q])
  }

  ghost predicate Earlier(rows: seq<Row>, a: Row, b: Row) {
    forall i, j :: 0 <= i < |rows| && 0 <= j < |rows| && rows[i] == a && rows[j] == b ==> i < j
  }

  lemma EarlierThere(rows: seq<Row>, a: Row, b: Row)
    requires rows != [] && DistinctIds(rows) && b in rows[1..]
    requires a == rows[0] || (a in rows[1..] && Earlier(rows[1..], a, b))
    ensures Earlier(rows, a, b)
  {
    forall i, j | 0 <= i < |rows| && 0 <= j < |rows| && rows[i] == a && rows[j] == b
      ensures i < j
    {
      if a != rows[0] {
        assert rows[1..][i - 1] == a && rows[1..][j - 1] == b;
      }
    }
  }

  lemma InOrderThere(rows: seq<Row>, kept: seq<Row>)
    requires rows != [] && DistinctIds(rows) && InOrder(rows[1..], kept) && forall r :: r in kept ==> r in rows[1..]
    ensures InOrder(rows, kept) && InOrder(rows, [rows[0]] + kept)
  {
    forall q | 0 <= q < |kept|
      ensures Earlier(rows, rows[0], kept[q])
    {
      EarlierThere(rows, rows[0], kept[q]);
    }
    forall p, q | 0 <= p < q < |kept|
      ensures Earlier(rows, kept[p], kept[q])
    {
      EarlierThere(rows, kept[p], kept[q]);
    }
  }

  lemma {:induction false} WithoutMeans(rows: seq<Row>, ids: set<EventId>)
    requires DistinctIds(rows)
    ensures OnlyRemoved(rows, Without(rows, ids), ids)
  {
    if rows != [] {
      WithoutMeans(rows[1..], ids);
      InOrderThere(rows, Without(rows[1..], ids));
    }
  }

  // A batch: pending rows that are due, ordered by the time they were enqueued and then by rowid, and no
  // due row that was enqueued earlier is left out.
  ghost predicate BatchIs(rows: seq<Row>, now: int, batch: seq<Row>, rowids: seq<nat>) {
    && |rowids| == |batch|
    && (forall k | 0 <= k < |batch| ::
          && rowids[k] < |rows| && batch[k] == rows[rowids[k]] && batch[k].status == Pending
          && batch[k].nextAttemptAt <= now)
    && (forall k, m | 0 <= k < m < |batch| ::
          && batch[k].enqueuedAt <= batch[m].enqueuedAt
          && (batch[k].enqueuedAt == batch[m].enqueuedAt ==> rowids[k] < rowids[m]))
    && (forall j: nat, k | j < |rows| && j !in rowids && 0 <= k < |batch| ::
          rows[j].status == Pending && rows[j].nextAttemptAt <= now ==>
            && batch[k].enqueuedAt <= rows[j].enqueuedAt
            && (batch[k].enqueuedAt == rows[j].enqueuedAt ==> rowids[k] < j))
  }

  lemma OldestFirstMeans(rows: seq<Row>, now: int, batch: seq<Row>, rowids: seq<nat>)
    requires DistinctIds(rows) && OldestFirst(rows, now, batch, rowids)
    ensures BatchIs(rows, now, batch, rowids)
  {
    forall j: nat | j < |rows| && rows[j].event.id in Ids(batch)
      ensures j in rowids
    {
      var k :| 0 <= k < |batch| && batch[k].event.id == rows[j].event.id;
      assert rowids[k] == j;
    }
  }

  class SQLiteSpool {
    var state: State

    ghost predicate Valid()
      reads this
    {
      && 1 <= state.maxEvents
      && |state.rows| <= state.maxEvents
      && DistinctIds(state.rows)
    }

    constructor (maxEvents: nat)
      requires 1 <= maxEvents
      ensures Valid() && state == State([], map[], maxEvents)
    {
      state := State([], map[], maxEvents);
    }

    // The event is inserted and the cursor moved in one transaction, or neither is.
    method EnqueueWithCursor(source: Source, cursor: Cursor, event: Event, now: int) returns (result: EnqueueResult)
      requires Valid()
      modifies this
      ensures Valid() && (state, result) == Enqueued(old(state), source, cursor, event, now)
      ensures result == SpoolFull || result == CursorRejected ==> state == old(state)
      ensures result == SpoolFull <==> event.id !in Ids(old(state).rows) && |old(state).rows| == old(state).maxEvents
      ensures result == Inserted || result == Duplicate ==>
                event.id in Ids(state.rows) && state.cursors == old(state).cursors[source := cursor]
      ensures result == Inserted <==>
                && event.id !in Ids(old(state).rows) && |old(state).rows| < state.maxEvents && 1 <= |cursor| <= 4096
      ensures result == Inserted ==>
                var n := |old(state).rows|;
                && |state.rows| == n + 1 && state.rows[..n] == old(state).rows && IsNew(state.rows[n], event, now)
                && event.id in PendingIds(state.rows)
      ensures result == Duplicate <==> event.id in Ids(old(state).rows) && 1 <= |cursor| <= 4096
      ensures result == Duplicate ==> state.rows == old(state).rows
      ensures state.maxEvents == old(state).maxEvents
    {
      if exists r :: r in state.rows && r.event.id == event.id {
        if !CursorFits(cursor) {
          return CursorRejected;
        }
        state := state.(cursors := state.cursors[source := cursor]);
        return Duplicate;
      }
      if |state.rows| >= state.maxEvents {
        return SpoolFull;
      }
      if !CursorFits(cursor) {
        return CursorRejected;
      }
      var row := Row(event, now, 0, 0, Pending, None);
      state := state.(rows := state.rows + [row], cursors := state.cursors[source := cursor]);
      assert row in state.rows;
      return Inserted;
    }

    method AdvanceCursor(source: Source, cursor: Cursor) returns (ok: bool)
      modifies this
      ensures ok <==> 1 <= |cursor| <= 4096
      ensures state == if ok then old(state).(cursors := old(state).cursors[source := cursor]) else old(state)
    {
      if !CursorFits(cursor) {
        return false;
      }
      state := state.(cursors := state.cursors[source := cursor]);
      return true;
    }

    method ClearCursor(source: Source)
      modifies this
      ensures state == old(state).(cursors := old(state).cursors - {source})
    {
      state := state.(cursors := state.cursors - {source});
    }

    // The oldest due row that is not selected yet.
    method OldestDue(now: int, selected: set<EventId>) returns (best: Option<nat>)
      ensures best.None? ==> DueIds(state.rows, now) <= selected
      ensures best.Some? ==>
          && best.value < |state.rows|
          && Due(state.rows[best.value], now) && state.rows[best.value].event.id !in selected
          && forall j: nat | j < |state.rows| && j != best.value && Due(state.rows[j], now)
                             && state.rows[j].event.id !in selected :: Older(state.rows, best.value, j)
    {
      best := None;
      for i := 0 to |state.rows|
        invariant best.None? ==> forall j :: 0 <= j < i && Due(state.rows[j], now) ==>
            state.rows[j].event.id in selected
        invariant best.Some? ==>
            && best.value < i
            && Due(state.rows[best.value], now) && state.rows[best.value].event.id !in selected
            && forall j: nat | j < i && j != best.value && Due(state.rows[j], now)
                               && state.rows[j].event.id !in selected :: Older(state.rows, best.value, j)
      {
        var r := state.rows[i];
        if Due(r, now) && r.event.id !in selected
           && (best.None? || r.enqueuedAt < state.rows[best.value].enqueuedAt) {
          best := Some(i);
        }
      }
    }

    // The first `limit` due rows, oldest first, ties in insertion order. `rowids` names the rows.
    method ReadyBatch(limit: nat, now: int) returns (batch: seq<Row>, ghost rowids: seq<nat>)
      requires Valid() && 1 <= limit <= 100
      ensures OldestFirst(state.rows, now, batch, rowids) && BatchIs(state.rows, now, batch, rowids)
      ensures |batch| == if |DueIds(state.rows, now)| < limit then |DueIds(state.rows, now)| else limit
    {
      batch, rowids := [], [];
      while |batch| < limit
        invariant |batch| <= limit && OldestFirst(state.rows, now, batch, rowids)
      {
        var best := OldestDue(now, Ids(batch));
        if best.None? {
          BatchSize(state.rows, now, batch, rowids);
          OldestFirstMeans(state.rows, now, batch, rowids);
          return;
        }
        OldestFirstExtends(state.rows, now, batch, rowids, best.value);
        batch, rowids := batch + [state.rows[best.value]], rowids + [best.value];
      }
      BatchSize(state.rows, now, batch, rowids);
      OldestFirstMeans(state.rows, now, batch, rowids);
    }

    method Acknowledge(ids: set<EventId>)
      requires Valid()
      modifies this
      ensures Valid() && state == old(state).(rows := Without(old(state).rows, ids))
      ensures OnlyRemoved(old(state).rows, state.rows, ids)
    {
      WithoutMeans(state.rows, ids);
      state := state.(rows := Without(state.rows, ids));
    }

    method Defer(ids: set<EventId>, delay: int, error: string, now: int)
      requires Valid()
      modifies this
      ensures Valid()
      ensures state == old(state).(rows := Deferred(old(state).rows, ids,
                                                         now + (if delay < 0 then 0 else delay), error))
      ensures OnlyDeferred(old(state).rows, state.rows, ids, now + (if delay < 0 then 0 else delay), error)
    {
      var next := now + (if delay > 0 then delay else 0);
      state := state.(rows := Deferred(state.rows, ids, next, error));
    }

    method Quarantine(id: EventId, status: RowStatus, error: string)
      requires Valid() && status != Pending
      modifies this
      ensures Valid() && state == old(state).(rows := SetAside(old(state).rows, id, status, error))
      ensures OnlySetAside(old(state).rows, state.rows, id, status, error)
    {
      state := state.(rows := SetAside(state.rows, id, status, error));
    }

    method Requeue(id: EventId) returns (found: bool)
      requires Valid()
      modifies this
      ensures Valid() && state == old(state).(rows := Requeued(old(state).rows, id))
      ensures OnlyRequeued(old(state).rows, state.rows, id)
      ensures found <==> id in Ids(old(state).rows) - PendingIds(old(state).rows)
      ensures !found ==> state == old(state)
      ensures found ==>
                && Ids(state.rows) == Ids(old(state).rows)
                && PendingIds(state.rows) == PendingIds(old(state).rows) + {id}
    {
      found := exists r :: r in state.rows && r.event.id == id && r.status != Pending;
      if found {
        RequeuedPending(state.rows, id);
        OnlyOneRow(state.rows, id);
      } else {
        assert Requeued(state.rows, id) == state.rows;
      }
      state := state.(rows := Requeued(state.rows, id));
    }

    method Delete(id: EventId) returns (found: bool)
      requires Valid()
      modifies this
      ensures Valid() && state == old(state).(rows := Without(old(state).rows, {id}))
      ensures found <==> id in Ids(old(state).rows)
      ensures OnlyRemoved(old(state).rows, state.rows, {id})
    {
      WithoutMeans(state.rows, {id});
      found := id in Ids(state.rows);
      state := state.(rows := Without(state.rows, {id}));
    }
  }
}
