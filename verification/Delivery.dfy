/** The agent's delivery manager: batches of the spool are sent, and halved or set aside when the
    server will not take them. */
module Delivery {
  import opened Prelude
  import opened Spool

  datatype DeliveryClass =
    | Success | Authentication | Forbidden | PayloadTooLarge | Unprocessable
    | RateLimited | ServerError | NetworkError | ProtocolError

  // `retryAfter` is the delay the server asked for, if any.
  datatype TransportResult = TransportResult(cls: DeliveryClass, retryAfter: Option<int>)

  datatype Action = Idle | Delivered | DeferredAction | QuarantinedAction

  function ErrorCodeOf(c: DeliveryClass): string {
    match c
    case Success => "success"
    case Authentication => "authentication"
    case Forbidden => "forbidden"
    case PayloadTooLarge => "payload_too_large"
    case Unprocessable => "unprocessable"
    case RateLimited => "rate_limited"
    case ServerError => "server_error"
    case NetworkError => "network_error"
    case ProtocolError => "protocol_error"
  }

  predicate Splittable(c: DeliveryClass) {
    c.PayloadTooLarge? || c.Unprocessable?
  }

  function TerminalStatus(c: DeliveryClass): RowStatus
    requires Splittable(c)
  {
    if c.PayloadTooLarge? then Oversized else Quarantined
  }

  // The delays that one call may need: the configured authentication delay and a backoff sample.
  datatype Delays = Delays(authentication: int, backoff: int)

  function DelayOf(result: TransportResult, d: Delays): int {
    match result.cls
    case Authentication => d.authentication
    case Forbidden => d.authentication
    case PayloadTooLarge => 0
    case Unprocessable => 0
    case RateLimited => if result.retryAfter.Some? then result.retryAfter.value else d.backoff
    case _ => d.backoff
  }

  function ToSet(ids: seq<EventId>): set<EventId> {
    set id | id in ids
  }

  function IdSeq(batch: seq<Row>): seq<EventId> {
    seq(|batch|, i requires 0 <= i < |batch| => batch[i].event.id)
  }

  // The rows after a batch with these ids got this answer at instant `now`.
  function Settled(rows: seq<Row>, ids: seq<EventId>, result: TransportResult, d: Delays, now: int): seq<Row>
    requires ids != []
  {
    if result.cls.Success? then Without(rows, ToSet(ids))
    else if Splittable(result.cls) && |ids| == 1 then
      SetAside(rows, ids[0], TerminalStatus(result.cls), ErrorCodeOf(result.cls))
    else
      var delay := DelayOf(result, d);
      Deferred(rows, ToSet(ids), now + (if delay < 0 then 0 else delay), ErrorCodeOf(result.cls))
  }

  function NextBatchSize(current: nat, configured: nat, sent: nat, c: DeliveryClass): nat {
    if c.Success? then configured
    else if Splittable(c) && sent > 1 then (if sent / 2 < 1 then 1 else sent / 2)
    else current
  }

  // ---------------------------------------------------------------- what an answer means, row by row

  // The rows after a batch of `sent` events with these ids got this answer and was settled at instant `at`.
  ghost predicate AnswerMeans(
    rows: seq<Row>, rows': seq<Row>, ids: set<EventId>, sent: nat, result: TransportResult, d: Delays, at: int)
  {
    var (authentication, backoff) := (if d.authentication < 0 then 0 else d.authentication,
                                      if d.backoff < 0 then 0 else d.backoff);
    match result
    case TransportResult(Success, _) => OnlyRemoved(rows, rows', ids)
    case TransportResult(PayloadTooLarge, _) =>
      if sent == 1 then forall id :: id in ids ==> OnlySetAside(rows, rows', id, Oversized, "payload_too_large")
      else OnlyDeferred(rows, rows', ids, at, "payload_too_large")
    case TransportResult(Unprocessable, _) =>
      if sent == 1 then forall id :: id in ids ==> OnlySetAside(rows, rows', id, Quarantined, "unprocessable")
      else OnlyDeferred(rows, rows', ids, at, "unprocessable")
    case TransportResult(RateLimited, Some(asked)) =>
      OnlyDeferred(rows, rows', ids, at + (if asked < 0 then 0 else asked), "rate_limited")
    case TransportResult(RateLimited, None) => OnlyDeferred(rows, rows', ids, at + backoff, "rate_limited")
    case TransportResult(ServerError, _) => OnlyDeferred(rows, rows', ids, at + backoff, "server_error")
    case TransportResult(NetworkError, _) => OnlyDeferred(rows, rows', ids, at + backoff, "network_error")
    case TransportResult(ProtocolError, _) => OnlyDeferred(rows, rows', ids, at + backoff, "protocol_error")
    case TransportResult(Authentication, _) => OnlyDeferred(rows, rows', ids, at + authentication, "authentication")
    case TransportResult(Forbidden, _) => OnlyDeferred(rows, rows', ids, at + authentication, "forbidden")
  }

  lemma SettledMeans(rows: seq<Row>, batch: seq<Row>, result: TransportResult, d: Delays, at: int)
    requires DistinctIds(rows) && batch != []
    ensures AnswerMeans(rows, Settled(rows, IdSeq(batch), result, d, at), Ids(batch), |batch|, result, d, at)
  {
    assert ToSet(IdSeq(batch)) == Ids(batch) by {
      forall k | 0 <= k < |batch|
        ensures batch[k].event.id in ToSet(IdSeq(batch))
      {
        assert IdSeq(batch)[k] == batch[k].event.id;
      }
    }
    var ids := Ids(batch);
    if result.cls.Success? {
      WithoutMeans(rows, ids);
    } else if Splittable(result.cls) && |batch| == 1 {
      assert ids == {batch[0].event.id};
      SetAsideMeans(rows, batch[0].event.id, TerminalStatus(result.cls), ErrorCodeOf(result.cls));
    } else {
      var delay := DelayOf(result, d);
      DeferredMeans(rows, ids, at + (if delay < 0 then 0 else delay), ErrorCodeOf(result.cls));
    }
  }

  // ---------------------------------------------------------------- the manager

  // The ingestion endpoint: what it answers to the n-th request, and the ids it has stored.
  class Transport {
    const answers: (nat, seq<Event>) -> TransportResult
    var calls: nat
    var stored: set<EventId>

    constructor (answers: (nat, seq<Event>) -> TransportResult)
      ensures this.answers == answers && calls == 0 && stored == {}
    {
      this.answers, calls, stored := answers, 0, {};
    }

    method Send(events: seq<Event>) returns (result: TransportResult)
      requires 1 <= |events| <= 100
      modifies this
      ensures result == answers(old(calls), events) && calls == old(calls) + 1
      ensures stored == old(stored) + (if result.cls.Success? then EventIds(events) else {})
    {
      result := answers(calls, events);
      calls := calls + 1;
      if result.cls.Success? {
        stored := stored + EventIds(events);
      }
    }
  }

  function Events(batch: seq<Row>): seq<Event> {
    seq(|batch|, i requires 0 <= i < |batch| => batch[i].event)
  }

  class DeliveryManager {
    const spool: SQLiteSpool
    const transport: Transport
    const configuredBatchSize: nat
    var currentBatchSize: nat

    ghost predicate Valid()
      reads this, spool
    {
      && spool.Valid()
      && 1 <= currentBatchSize <= configuredBatchSize <= 100
    }

    constructor (spool: SQLiteSpool, transport: Transport, configuredBatchSize: nat)
      requires spool.Valid() && 1 <= configuredBatchSize <= 100
      ensures Valid() && this.spool == spool && this.transport == transport
      ensures this.configuredBatchSize == configuredBatchSize && currentBatchSize == configuredBatchSize
    {
      this.spool, this.transport := spool, transport;
      this.configuredBatchSize, currentBatchSize := configuredBatchSize, configuredBatchSize;
    }

    // One delivery attempt. The spool is read at `readAt` and updated at `settleAt`.
    method DeliverOnce(d: Delays, readAt: int, settleAt: int) returns (action: Action, ghost batch: seq<Row>)
      requires Valid()
      modifies this`currentBatchSize, spool, transport
      ensures Valid()
      ensures exists rowids :: OldestFirst(old(spool.state).rows, readAt, batch, rowids)
      ensures exists rowids :: BatchIs(old(spool.state).rows, readAt, batch, rowids)
      ensures |batch| == if |DueIds(old(spool.state).rows, readAt)| < old(currentBatchSize)
                         then |DueIds(old(spool.state).rows, readAt)| else old(currentBatchSize)
      ensures action == Idle <==> batch == []
      ensures batch == [] ==>
                && spool.state == old(spool.state) && currentBatchSize == old(currentBatchSize)
                && transport.calls == old(transport.calls) && transport.stored == old(transport.stored)
      ensures batch != [] ==>
          var result := transport.answers(old(transport.calls), Events(batch));
          && transport.calls == old(transport.calls) + 1
          && transport.stored == old(transport.stored) + (if result.cls.Success? then EventIds(Events(batch)) else {})
          && spool.state == old(spool.state).(rows := Settled(old(spool.state).rows, IdSeq(batch), result, d, settleAt))
          && currentBatchSize == NextBatchSize(old(currentBatchSize), configuredBatchSize, |batch|, result.cls)
          && (action == Delivered <==> result.cls.Success?)
          && AnswerMeans(old(spool.state).rows, spool.state.rows, Ids(batch), |batch|, result, d, settleAt)
          && (action == QuarantinedAction <==> result.cls in {PayloadTooLarge, Unprocessable} && |batch| == 1)
          && currentBatchSize == (if result.cls == Success then configuredBatchSize
                                  else if result.cls in {PayloadTooLarge, Unprocessable} && |batch| > 1 then |batch| / 2
                                  else old(currentBatchSize))
    {
      var queued, rowids := spool.ReadyBatch(currentBatchSize, readAt);
      batch := queued;
      if queued == [] {
        return Idle, batch;
      }
      action := DeliverBatch(queued, d, settleAt);
    }

    // Sends a batch and settles its rows by the answer.
    method DeliverBatch(queued: seq<Row>, d: Delays, settleAt: int) returns (action: Action)
      requires Valid() && 1 <= |queued| <= currentBatchSize
      modifies this`currentBatchSize, spool, transport
      ensures Valid() && action != Idle
      ensures var result := transport.answers(old(transport.calls), Events(queued));
          && transport.calls == old(transport.calls) + 1
          && transport.stored == old(transport.stored) + (if result.cls.Success? then EventIds(Events(queued)) else {})
          && spool.state
             == old(spool.state).(rows := Settled(old(spool.state).rows, IdSeq(queued), result, d, settleAt))
          && currentBatchSize == NextBatchSize(old(currentBatchSize), configuredBatchSize, |queued|, result.cls)
          && (action == Delivered <==> result.cls.Success?)
          && AnswerMeans(old(spool.state).rows, spool.state.rows, Ids(queued), |queued|, result, d, settleAt)
          && (action == QuarantinedAction <==> Splittable(result.cls) && |queued| == 1)
    {
      var ids := IdSeq(queued);
      var result := transport.Send(Events(queued));
      SettledMeans(spool.state.rows, queued, result, d, settleAt);
      if result.cls.Success? {
        spool.Acknowledge(ToSet(ids));
        currentBatchSize := configuredBatchSize;
        return Delivered;
      }
      if Splittable(result.cls) {
        action := HandleSplittableFailure(ids, result, d, settleAt);
        return;
      }
      spool.Defer(ToSet(ids), DelayOf(result, d), ErrorCodeOf(result.cls), settleAt);
      return DeferredAction;
    }

    method HandleSplittableFailure(ids: seq<EventId>, result: TransportResult, d: Delays, now: int)
      returns (action: Action)
      requires Valid() && 1 <= |ids| <= currentBatchSize && Splittable(result.cls)
      modifies this`currentBatchSize, spool
      ensures Valid()
      ensures spool.state == old(spool.state).(rows := Settled(old(spool.state).rows, ids, result, d, now))
      ensures currentBatchSize == NextBatchSize(old(currentBatchSize), configuredBatchSize, |ids|, result.cls)
      ensures action == if |ids| == 1 then QuarantinedAction else DeferredAction
      ensures if |ids| == 1 then
                var tooLarge := result.cls.PayloadTooLarge?;
                && OnlySetAside(old(spool.state).rows, spool.state.rows, ids[0],
                                if tooLarge then Oversized else Quarantined,
                                if tooLarge then "payload_too_large" else "unprocessable")
                && currentBatchSize == old(currentBatchSize)
              else
                && OnlyDeferred(old(spool.state).rows, spool.state.rows, ToSet(ids), now, ErrorCodeOf(result.cls))
                && currentBatchSize == |ids| / 2
    {
      if |ids| > 1 {
        currentBatchSize := if |ids| / 2 > 1 then |ids| / 2 else 1;
        spool.Defer(ToSet(ids), 0, ErrorCodeOf(result.cls), now);
        return DeferredAction;
      }
      spool.Quarantine(ids[0], TerminalStatus(result.cls), ErrorCodeOf(result.cls));
      return QuarantinedAction;
    }
  }
}
