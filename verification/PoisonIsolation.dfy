/** Halving isolates the events a server will never take, and delivers all the others, within a
    bounded number of requests. */
module PoisonIsolation {
  import opened Spool
  import opened Delivery

  // The server accepts a single event exactly when it is not poison, never accepts a batch that
  // contains poison, and turns a batch down only with 413 or 422.
  ghost predicate RejectsExactly(answers: (nat, seq<Event>) -> TransportResult, poison: set<EventId>) {
    forall n: nat, events: seq<Event> :: AnswerOk(events, answers(n, events).cls, poison)
  }

  predicate AnswerOk(events: seq<Event>, c: DeliveryClass, poison: set<EventId>) {
    && (c.Success? || Splittable(c))
    && (c.Success? ==> EventIds(events) !! poison)
    && (|events| == 1 && events[0].id !in poison ==> c.Success?)
  }

  // ---------------------------------------------------------------- what one answer does to the rows

  // The ids that an answer removes from the pending rows.
  function Cleared(ids: seq<EventId>, result: TransportResult): set<EventId>
    requires ids != []
  {
    if result.cls.Success? then ToSet(ids)
    else if Splittable(result.cls) && |ids| == 1 then {ids[0]} else {}
  }

  // Rows leave the spool only on success, and then exactly the batch does. A single event that is
  // turned down stops being pending; after any other answer every event is still pending.
  lemma SettledIds(rows: seq<Row>, ids: seq<EventId>, result: TransportResult, d: Delays, now: int)
    requires ids != []
    ensures var rows' := Settled(rows, ids, result, d, now);
            && Ids(rows') == Ids(rows) - (if result.cls.Success? then ToSet(ids) else {})
            && PendingIds(rows') <= PendingIds(rows)
            && (DistinctIds(rows) ==> PendingIds(rows') == PendingIds(rows) - Cleared(ids, result))
  {
    var rows' := Settled(rows, ids, result, d, now);
    if !result.cls.Success? {
      assert forall i :: 0 <= i < |rows| ==> rows'[i].event == rows[i].event;
      forall i | 0 <= i < |rows|
        ensures rows[i].event.id in Ids(rows')
        ensures rows[i].status == Pending && rows[i].event.id !in Cleared(ids, result)
                ==> rows[i].event.id in PendingIds(rows')
      {
        assert rows'[i] in rows';
      }
    }
  }

  // Rows outside the batch are untouched, and with a zero delay the rows that stay pending are due
  // as soon as the update is made.
  lemma SettledRows(rows: seq<Row>, ids: seq<EventId>, result: TransportResult, d: Delays, now: int)
    requires ids != []
    ensures var rows' := Settled(rows, ids, result, d, now);
            && (forall r :: r in rows && r.event.id !in ids ==> r in rows')
            && (forall r :: r in rows' ==> r in rows || r.event.id in ids)
            && (Splittable(result.cls) ==> forall r :: r in rows' && r !in rows && r.status == Pending ==> Due(r, now))
  {
    var rows' := Settled(rows, ids, result, d, now);
    if !result.cls.Success? {
      forall i | 0 <= i < |rows|
        ensures rows[i].event.id !in ids ==> rows[i] in rows'
      {
        assert rows'[i] in rows';
      }
    }
  }

  // ---------------------------------------------------------------- the bound

  function Log2(n: nat): nat
    requires n >= 1
  {
    if n == 1 then 0 else 1 + Log2(n / 2)
  }

  lemma {:induction false} Log2Monotone(a: nat, b: nat)
    requires 1 <= a <= b
    ensures Log2(a) <= Log2(b)
    decreases b
  {
    if a > 1 { Log2Monotone(a / 2, b / 2); }
  }

  function Min(a: nat, b: nat): nat {
    if a < b then a else b
  }

  function Times(n: nat, k: nat): (r: nat)
    ensures r == n * k
  {
    if n == 0 then 0 else k + Times(n - 1, k)
  }

  lemma {:induction false} TimesMonotone(m: nat, n: nat, k: nat)
    requires m <= n
    ensures Times(m, k) <= Times(n, k)
    decreases n
  {
    if m < n { TimesMonotone(m, n - 1, k); }
  }

  // Requests still needed with n events pending, current batch size c and configured size b.
  function Remaining(n: nat, c: nat, b: nat): nat
    requires 1 <= c <= b
  {
    if n == 0 then 0 else Times(n - 1, 1 + Log2(b)) + 1 + Log2(Min(c, n))
  }

  lemma RemainingStart(n: nat, c: nat, b: nat)
    requires 1 <= c <= b
    ensures Remaining(n, c, b) <= Times(n, 1 + Log2(b))
  {
    if n > 0 {
      Log2Monotone(Min(c, n), b);
    }
  }

  // Halving a batch of at least two uses up one request.
  lemma RemainingHalved(n: nat, c: nat, b: nat)
    requires 1 <= c <= b && Min(c, n) > 1
    ensures Remaining(n, Min(c, n) / 2, b) + 1 <= Remaining(n, c, b)
  {
  }

  // So does clearing at least one event, whatever the batch size becomes.
  lemma RemainingCleared(n: nat, n': nat, c: nat, c': nat, b: nat)
    requires n' < n && 1 <= c <= b && 1 <= c' <= b
    ensures Remaining(n', c', b) + 1 <= Remaining(n, c, b)
  {
    RemainingStart(n', c', b);
    TimesMonotone(n', n - 1, 1 + Log2(b));
  }

  // ---------------------------------------------------------------- draining the spool

  ghost predicate AllDue(rows: seq<Row>, now: int) {
    forall r :: r in rows && r.status == Pending ==> Due(r, now)
  }

  lemma AllDueIds(rows: seq<Row>, now: int)
    requires AllDue(rows, now)
    ensures DueIds(rows, now) == PendingIds(rows)
  {
  }

  lemma BatchSets(rows: seq<Row>, now: int, batch: seq<Row>, rowids: seq<nat>)
    requires OldestFirst(rows, now, batch, rowids)
    ensures ToSet(IdSeq(batch)) == EventIds(Events(batch)) == Ids(batch) <= DueIds(rows, now)
    ensures |Ids(batch)| == |batch|
  {
    BatchSize(rows, now, batch, rowids);
    forall k | 0 <= k < |batch|
      ensures batch[k].event.id in ToSet(IdSeq(batch)) && batch[k].event.id in EventIds(Events(batch))
    {
      assert IdSeq(batch)[k] == batch[k].event.id && Events(batch)[k] == batch[k].event;
    }
  }

  // What the server stores in one round is what the round cleared, poison excepted.
  lemma RoundSets(rows: seq<Row>, at: int, batch: seq<Row>, rowids: seq<nat>, result: TransportResult, d: Delays,
                  now: int, poison: set<EventId>)
    requires DistinctIds(rows) && OldestFirst(rows, at, batch, rowids) && batch != []
    requires AnswerOk(Events(batch), result.cls, poison)
    ensures var cleared := Cleared(IdSeq(batch), result); var rows' := Settled(rows, IdSeq(batch), result, d, now);
            && cleared <= DueIds(rows, at)
            && PendingIds(rows') == PendingIds(rows) - cleared
            && Ids(rows') == Ids(rows) - (cleared - poison)
            && (if result.cls.Success? then EventIds(Events(batch)) else {}) == cleared - poison
            && (cleared == {} ==> Splittable(result.cls) && |batch| > 1)
            && (cleared != {} ==> result.cls.Success? || |batch| == 1)
  {
    BatchSets(rows, at, batch, rowids);
    SettledIds(rows, IdSeq(batch), result, d, now);
    assert Events(batch)[0] == batch[0].event && IdSeq(batch)[0] == batch[0].event.id;
    assert batch[0].event.id in Ids(batch);
  }

  lemma RoundMeasure(p: set<EventId>, cleared: set<EventId>, batch: seq<Row>, size: nat, b: nat, cls: DeliveryClass)
    requires 1 <= size <= b && batch != [] && |batch| == Min(|p|, size) && cleared <= p
    requires cls.Success? || Splittable(cls)
    requires cleared == {} ==> Splittable(cls) && |batch| > 1
    requires cleared != {} ==> cls.Success? || |batch| == 1
    ensures 1 <= NextBatchSize(size, b, |batch|, cls) <= b
    ensures Remaining(|p - cleared|, NextBatchSize(size, b, |batch|, cls), b) + 1 <= Remaining(|p|, size, b)
  {
    if cleared == {} {
      assert p - cleared == p;
      RemainingHalved(|p|, size, b);
    } else {
      assert |(p - cleared) + cleared| == |p - cleared| + |cleared|;
      assert p == (p - cleared) + cleared;
      RemainingCleared(|p|, |p - cleared|, size, NextBatchSize(size, b, |batch|, cls), b);
    }
  }

  lemma RoundStaysDue(rows: seq<Row>, at: int, ids: seq<EventId>, result: TransportResult, d: Delays, now: int, t: int)
    requires ids != [] && AllDue(rows, at) && at <= now <= t && (result.cls.Success? || Splittable(result.cls))
    ensures AllDue(Settled(rows, ids, result, d, now), t)
  {
    SettledRows(rows, ids, result, d, now);
  }

  // The progress made from the initial rows: of the events no longer pending, the server stores and
  // the spool drops exactly those that are not poison.
  ghost predicate Progress(rows0: seq<Row>, stored0: set<EventId>, rows: seq<Row>, stored: set<EventId>,
                           poison: set<EventId>) {
    && PendingIds(rows) <= PendingIds(rows0)
    && var accepted := PendingIds(rows0) - PendingIds(rows) - poison;
       stored == stored0 + accepted && Ids(rows) == Ids(rows0) - accepted
  }

  lemma ProgressStep(rows0: seq<Row>, stored0: set<EventId>, rows: seq<Row>, stored: set<EventId>,
                     rows': seq<Row>, stored': set<EventId>, cleared: set<EventId>, poison: set<EventId>)
    requires Progress(rows0, stored0, rows, stored, poison) && cleared <= PendingIds(rows)
    requires PendingIds(rows') == PendingIds(rows) - cleared && Ids(rows') == Ids(rows) - (cleared - poison)
    requires stored' == stored + (cleared - poison)
    ensures Progress(rows0, stored0, rows', stored', poison)
  {
    var a := PendingIds(rows0) - PendingIds(rows) - poison;
    assert PendingIds(rows0) - PendingIds(rows') - poison == a + (cleared - poison);
  }

  lemma RoundFacts(rows: seq<Row>, stored: set<EventId>, size: nat, b: nat, at: int, now: int, next: int,
                   batch: seq<Row>, rowids: seq<nat>, result: TransportResult, d: Delays, poison: set<EventId>,
                   rows0: seq<Row>, stored0: set<EventId>)
    requires DistinctIds(rows) && OldestFirst(rows, at, batch, rowids) && batch != []
    requires AnswerOk(Events(batch), result.cls, poison)
    requires AllDue(rows, at) && at <= now <= next && 1 <= size <= b && |batch| == Min(|PendingIds(rows)|, size)
    requires Progress(rows0, stored0, rows, stored, poison)
    ensures var rows' := Settled(rows, IdSeq(batch), result, d, now);
            var stored' := stored + (if result.cls.Success? then EventIds(Events(batch)) else {});
            var size' := NextBatchSize(size, b, |batch|, result.cls);
            && AllDue(rows', next) && Progress(rows0, stored0, rows', stored', poison)
            && 1 <= size' <= b
            && Remaining(|PendingIds(rows')|, size', b) + 1 <= Remaining(|PendingIds(rows)|, size, b)
  {
    var cleared := Cleared(IdSeq(batch), result);
    AllDueIds(rows, at);
    RoundSets(rows, at, batch, rowids, result, d, now, poison);
    RoundMeasure(PendingIds(rows), cleared, batch, size, b, result.cls);
    RoundStaysDue(rows, at, IdSeq(batch), result, d, now, next);
    ProgressStep(rows0, stored0, rows, stored, Settled(rows, IdSeq(batch), result, d, now),
                 stored + (if result.cls.Success? then EventIds(Events(batch)) else {}), cleared, poison);
  }

  // One attempt on a spool whose pending events are all due: it makes progress, or nothing is pending.
  method Round(m: DeliveryManager, d: Delays, at: int, now: int, ghost next: int,
               ghost rows0: seq<Row>, ghost stored0: set<EventId>, ghost poison: set<EventId>)
    returns (action: Action)
    requires m.Valid() && RejectsExactly(m.transport.answers, poison) && at <= now <= next
    requires AllDue(m.spool.state.rows, at)
    requires Progress(rows0, stored0, m.spool.state.rows, m.transport.stored, poison)
    modifies m`currentBatchSize, m.spool, m.transport
    ensures m.Valid() && Progress(rows0, stored0, m.spool.state.rows, m.transport.stored, poison)
    ensures action == Idle ==>
              PendingIds(m.spool.state.rows) == {} && m.spool.state == old(m.spool.state)
              && m.currentBatchSize == old(m.currentBatchSize)
    ensures action != Idle ==>
              && AllDue(m.spool.state.rows, next)
              && Remaining(|PendingIds(m.spool.state.rows)|, m.currentBatchSize, m.configuredBatchSize) + 1
                 <= Remaining(|PendingIds(old(m.spool.state).rows)|, old(m.currentBatchSize), m.configuredBatchSize)
  {
    ghost var rows, stored, size, call := m.spool.state.rows, m.transport.stored, m.currentBatchSize, m.transport.calls;
    AllDueIds(rows, at);
    ghost var batch;
    action, batch := m.DeliverOnce(d, at, now);
    if action != Idle {
      ghost var rowids :| OldestFirst(rows, at, batch, rowids);
      ghost var result := m.transport.answers(call, Events(batch));
      RoundFacts(rows, stored, size, m.configuredBatchSize, at, now, next, batch, rowids, result, d,
                 poison, rows0, stored0);
    }
  }

  // Repeats delivery attempts until nothing is due. Attempt k reads the clock at instants 2k, 2k + 1.
  // Exactly the events that are not poison reach the server and leave the spool; exactly the poison
  // ones end up set aside; and it takes at most n * (1 + log2 of the batch size) requests.
  method Drain(m: DeliveryManager, d: Delays, clock: nat -> int, ghost poison: set<EventId>) returns (requests: nat)
    requires m.Valid() && RejectsExactly(m.transport.answers, poison)
    requires forall k: nat :: clock(k) <= clock(k + 1)
    requires AllDue(m.spool.state.rows, clock(0))
    modifies m`currentBatchSize, m.spool, m.transport
    ensures m.Valid() && PendingIds(m.spool.state.rows) == {}
    ensures requests <= |PendingIds(old(m.spool.state).rows)| * (1 + Log2(m.configuredBatchSize))
    ensures var accepted := PendingIds(old(m.spool.state).rows) - poison;
            && m.transport.stored == old(m.transport.stored) + accepted
            && Ids(m.spool.state.rows) == Ids(old(m.spool.state).rows) - accepted
  {
    requests := 0;
    ghost var rows0, stored0 := m.spool.state.rows, m.transport.stored;
    RemainingStart(|PendingIds(rows0)|, m.currentBatchSize, m.configuredBatchSize);
    var idle := false;
    while !idle
      invariant m.Valid()
      invariant !idle ==> AllDue(m.spool.state.rows, clock(2 * requests))
      invariant Progress(rows0, stored0, m.spool.state.rows, m.transport.stored, poison)
      invariant requests + Remaining(|PendingIds(m.spool.state.rows)|, m.currentBatchSize, m.configuredBatchSize)
                <= |PendingIds(rows0)| * (1 + Log2(m.configuredBatchSize))
      invariant idle ==> PendingIds(m.spool.state.rows) == {}
      decreases !idle, Remaining(|PendingIds(m.spool.state.rows)|, m.currentBatchSize, m.configuredBatchSize)
    {
      var now := clock(2 * requests + 1);
      assert clock(2 * requests) <= now <= clock(2 * requests + 1 + 1);
      var action := Round(m, d, clock(2 * requests), now, clock(2 * (requests + 1)), rows0, stored0, poison);
      if action == Idle {
        idle := true;
      } else {
        requests := requests + 1;
      }
    }
  }
}
