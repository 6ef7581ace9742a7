/** What the table's transactions and a worker's iterations are in terms of the runs: every one of them is
    made of enabled events, with the same rows and the same reports. */
module OutboxRefinement {
  import opened Prelude
  import opened OutboxRow
  import opened OutboxRuns
  import opened OutboxTable
  import opened OutboxWitnesses

  // ---------------------------------------------------------------- the other transactions

  // A completion is the event of a worker whose call is over; it is told what the run says.
  lemma CompletionIsAnEvent(s: System, w: OutboxRuns.Worker, c: Claim, outcome: Outcome, now: int)
    requires w in s.busy && s.busy[w] == Busy(c, AfterCall(outcome)) && now <= s.now
    ensures var e := Complete(w, now);
            && Enabled(s, e) && Apply(s, e).rows == CompletedRows(s.rows, c, outcome, now) && w !in Apply(s, e).busy
            && (CompletionReport(s.rows, c, outcome, now).Some? <==> Effective(s, e))
  {
  }

  lemma RecoveryIsAnEvent(s: System, now: int)
    requires now <= s.now
    ensures Enabled(s, Recover(now)) && Apply(s, Recover(now)).rows == RecoveredRows(s.rows, now)
  {
  }

  // A requeue is accepted exactly when its event is enabled.
  lemma RequeueIsAnEvent(s: System, id: OutboxId, extra: int, now: int)
    requires now <= s.now
    ensures var e := Requeue(id, extra, now);
            && (Enabled(s, e) <==>
                  && id in s.rows && s.rows[id].status == Failed && 1 <= extra <= 5
                  && s.rows[id].maxAttempts + extra <= MAX_ATTEMPTS)
            && (Enabled(s, e) ==> Apply(s, e).rows == s.rows[id := OutboxRow.Requeued(s.rows[id], extra, now)])
  {
  }

  // ---------------------------------------------------------------- playing events

  predicate Playable(s: System, es: seq<Event>)
    decreases |es|
  {
    es == [] || (Enabled(s, es[0]) && Playable(Apply(s, es[0]), es[1..]))
  }

  // The state after as many of the events as are enabled in turn.
  function After(s: System, es: seq<Event>): System
    decreases |es|
  {
    if es == [] || !Enabled(s, es[0]) then s else After(Apply(s, es[0]), es[1..])
  }

  lemma {:induction false} PlayBoth(s: System, a: seq<Event>, b: seq<Event>)
    requires Playable(s, a) && Playable(After(s, a), b)
    ensures Playable(s, a + b) && After(s, a + b) == After(After(s, a), b)
    decreases |a|
  {
    if a == [] {
      assert a + b == b;
    } else {
      assert (a + b)[0] == a[0] && (a + b)[1..] == a[1..] + b;
      PlayBoth(Apply(s, a[0]), a[1..], b);
    }
  }

  lemma PlayOne(s: System, e: Event)
    requires Enabled(s, e)
    ensures Playable(s, [e]) && After(s, [e]) == Apply(s, e)
  {
    assert [e][1..] == [];
  }

  lemma PlayTwo(s: System, a: Event, b: Event)
    requires Enabled(s, a) && Enabled(Apply(s, a), b)
    ensures Playable(s, [a, b]) && After(s, [a, b]) == Apply(Apply(s, a), b)
  {
    PlayOne(s, a);
    PlayOne(Apply(s, a), b);
    PlayBoth(s, [a], [b]);
    assert [a] + [b] == [a, b];
  }

  // Whatever can be played from the end of a run makes the run longer.
  lemma {:induction false} PlayingIsARun(ss: seq<System>, es: seq<Event>, more: seq<Event>) returns (ss': seq<System>)
    requires Run(ss, es) && Playable(ss[|es|], more)
    ensures Run(ss', es + more) && ss <= ss' && ss'[|es + more|] == After(ss[|es|], more)
    decreases |more|
  {
    if more == [] {
      ss' := ss;
      assert es + more == es;
    } else {
      ExtendRun(ss, es, more[0]);
      ss' := PlayingIsARun(ss + [Apply(ss[|es|], more[0])], es + [more[0]], more[1..]);
      assert es + [more[0]] + more[1..] == es + more;
    }
  }

  // ---------------------------------------------------------------- one iteration of a worker

  // The worker's own events: the claim and the start of the call, if there is an adapter ...
  function ClaimEvents(w: OutboxRuns.Worker, t: Turn, lease: int, claim: ClaimResult): seq<Event>
    requires !claim.Nothing?
  {
    if claim.FailedAtOnce? then [ClaimAndFail(claim.id, t.token, t.claimAt, lease, claim.code)]
    else if t.reply.NoSuchAdapter? then [ClaimNext(w, claim.claim.id, t.token, t.claimAt, lease)]
    else [ClaimNext(w, claim.claim.id, t.token, t.claimAt, lease), StartCall(w)]
  }

  // ... and, for a row that did not fail at once, the end of the call and the completion.
  function CompletionEvents(w: OutboxRuns.Worker, t: Turn, claim: ClaimResult): seq<Event>
    requires !claim.Nothing?
  {
    if claim.FailedAtOnce? then []
    else
      var end := if t.reply.NoSuchAdapter? then NoAdapter(w) else EndCall(w, OutcomeOf(t.reply, t.delay));
      [end, Complete(w, t.completeAt)]
  }

  // A whole iteration, with the events of the others before the claim and during the call.
  function IterationEvents(
    w: OutboxRuns.Worker, t: Turn, lease: int, claim: ClaimResult, earlier: seq<Event>, meanwhile: seq<Event>)
    : seq<Event>
    requires !claim.Nothing?
  {
    earlier + ClaimEvents(w, t, lease, claim) + meanwhile + CompletionEvents(w, t, claim)
  }

  // The events of others make of the table what the turn says, leave the worker as it is, let the clock
  // reach the worker's next reading and do not use its token.
  predicate OthersFit(
    w: OutboxRuns.Worker, s: System, es: seq<Event>, f: map<OutboxId, Row> -> map<OutboxId, Row>, at: int)
  {
    && Playable(s, es) && After(s, es).rows == f(s.rows) && at <= After(s, es).now
    && (w in After(s, es).busy <==> w in s.busy) && (w in s.busy ==> After(s, es).busy[w] == s.busy[w])
  }

  predicate Fits(
    w: OutboxRuns.Worker, t: Turn, lease: int, claim: ClaimResult, s: System,
    earlier: seq<Event>, meanwhile: seq<Event>)
    requires !claim.Nothing?
  {
    && OthersFit(w, s, earlier, t.earlier, t.claimAt) && t.token !in After(s, earlier).issued
    && var held := After(After(s, earlier), ClaimEvents(w, t, lease, claim));
       if claim.FailedAtOnce? then meanwhile == [] else OthersFit(w, held, meanwhile, t.meanwhile, t.completeAt)
  }

  // Where a worker stands once it holds a claim: at the adapter, or without one.
  function StageOf(reply: Reply): Stage {
    if reply.NoSuchAdapter? then BeforeCall else InCall
  }

  lemma ClaimHalf(
    worker: OutboxTable.Worker, w: OutboxRuns.Worker, t: Turn, d: Done, mid: map<OutboxId, Row>, s: System)
    requires w !in s.busy && t.token !in s.issued && t.claimAt <= s.now && worker.lease > 0 && !d.claim.Nothing?
    requires ClaimEffect(s.rows, worker.destinations, t.locked, worker.payloadValid, t.token, t.claimAt, worker.lease,
                         d.claim, mid)
    ensures var es := ClaimEvents(w, t, worker.lease, d.claim);
            && Playable(s, es) && After(s, es).rows == mid
            && (if d.claim.Claimed?
                then w in After(s, es).busy && After(s, es).busy[w] == Busy(d.claim.claim, StageOf(t.reply))
                else w !in After(s, es).busy)
  {
    ClaimIsAnEvent(s, w, worker.destinations, t.locked, worker.payloadValid, t.token, t.claimAt, worker.lease,
                   d.claim, mid);
    if d.claim.FailedAtOnce? {
      PlayOne(s, ClaimAndFail(d.claim.id, t.token, t.claimAt, worker.lease, d.claim.code));
    } else {
      var e := ClaimNext(w, d.claim.claim.id, t.token, t.claimAt, worker.lease);
      if t.reply.NoSuchAdapter? { PlayOne(s, e); } else { PlayTwo(s, e, StartCall(w)); }
    }
  }

  lemma CompletionHalf(
    worker: OutboxTable.Worker, w: OutboxRuns.Worker, t: Turn, d: Done, mid: map<OutboxId, Row>,
    rows: map<OutboxId, Row>, s: System)
    requires d.claim.Claimed? && w in s.busy && s.busy[w] == Busy(d.claim.claim, StageOf(t.reply))
    requires s.rows == t.meanwhile(mid) && t.completeAt <= s.now && worker.Finished(t, mid, d, rows)
    ensures var es := CompletionEvents(w, t, d.claim);
            && Playable(s, es) && After(s, es).rows == rows && w !in After(s, es).busy
            && (d.report.Some? <==> Effective(Apply(s, es[0]), es[1]))
  {
    var es := CompletionEvents(w, t, d.claim);
    CompletionIsAnEvent(Apply(s, es[0]), w, d.claim.claim, OutcomeOf(t.reply, t.delay), t.completeAt);
    PlayTwo(s, es[0], es[1]);
  }

  // One iteration of run_once is a run: the others' events, the worker's claim and call, the others'
  // events again, the worker's completion.
  lemma IterationIsARun(
    worker: OutboxTable.Worker, w: OutboxRuns.Worker, t: Turn, rows: map<OutboxId, Row>, d: Done,
    rows': map<OutboxId, Row>, s: System, earlier: seq<Event>, meanwhile: seq<Event>)
    requires worker.lease > 0 && s.rows == rows && w !in s.busy && worker.TurnIs(t, rows, d, rows')
    requires !d.claim.Nothing? && Fits(w, t, worker.lease, d.claim, s, earlier, meanwhile)
    ensures var es := IterationEvents(w, t, worker.lease, d.claim, earlier, meanwhile);
            Playable(s, es) && After(s, es).rows == rows' && w !in After(s, es).busy
  {
    var mid :| ClaimEffect(t.earlier(rows), worker.destinations, t.locked, worker.payloadValid, t.token, t.claimAt,
                           worker.lease, d.claim, mid)
               && worker.Finished(t, mid, d, rows');
    var claim, last := ClaimEvents(w, t, worker.lease, d.claim), CompletionEvents(w, t, d.claim);
    ClaimHalf(worker, w, t, d, mid, After(s, earlier));
    PlayBoth(s, earlier, claim);
    var held := After(s, earlier + claim);
    if d.claim.Claimed? {
      PlayBoth(s, earlier + claim, meanwhile);
      CompletionHalf(worker, w, t, d, mid, rows', After(held, meanwhile));
      PlayBoth(s, earlier + claim + meanwhile, last);
    } else {
      assert earlier + claim + meanwhile + last == earlier + claim;
    }
  }

  // ---------------------------------------------------------------- a whole call of run_once

  // What the others do in each iteration.
  datatype Interleaving = Interleaving(earlier: seq<Event>, meanwhile: seq<Event>)

  ghost predicate AllFit(
    w: OutboxRuns.Worker, lease: int, turns: seq<Turn>, log: seq<Done>, others: seq<Interleaving>, s: System)
    requires |log| <= |turns| && |log| == |others|
    decreases |log|
  {
    log == []
    || (&& !log[0].claim.Nothing? && Fits(w, turns[0], lease, log[0].claim, s, others[0].earlier, others[0].meanwhile)
        && AllFit(w, lease, turns[1..], log[1..], others[1..],
                  After(s, IterationEvents(w, turns[0], lease, log[0].claim, others[0].earlier, others[0].meanwhile))))
  }

  function AfterIterations(
    w: OutboxRuns.Worker, lease: int, turns: seq<Turn>, log: seq<Done>, others: seq<Interleaving>, s: System): System
    requires |log| <= |turns| && |log| == |others|
    decreases |log|
  {
    if log == [] || log[0].claim.Nothing? then s
    else
      var first := IterationEvents(w, turns[0], lease, log[0].claim, others[0].earlier, others[0].meanwhile);
      AfterIterations(w, lease, turns[1..], log[1..], others[1..], After(s, first))
  }

  // The loop ended because nothing was found, and not for the limit or for want of turns.
  predicate Looks(limit: nat, turns: seq<Turn>, log: seq<Done>) {
    |log| < limit && |log| < |turns|
  }

  function Recovering(s: System, recoverAt: Option<int>): System {
    if recoverAt.Some? then s.(rows := RecoveredRows(s.rows, recoverAt.value)) else s
  }

  predicate LastLookFits(
    w: OutboxRuns.Worker, limit: nat, turns: seq<Turn>, log: seq<Done>, lastLook: seq<Event>, s: System)
  {
    Looks(limit, turns, log) ==> OthersFit(w, s, lastLook, turns[|log|].earlier, turns[|log|].claimAt)
  }

  // Whatever the table showed the worker and the worker made of it, iteration by iteration, is a run of
  // the system, from any state with the table it started with, with the events of the others in between.
  lemma {:induction false} RunOnceIsARun(
    worker: OutboxTable.Worker, w: OutboxRuns.Worker, turns: seq<Turn>, trail: seq<map<OutboxId, Row>>, log: seq<Done>,
    others: seq<Interleaving>, s: System)
    returns (es: seq<Event>)
    requires worker.TurnsAre(turns, trail, log) && worker.lease > 0 && |log| == |others|
    requires s.rows == trail[0] && w !in s.busy && AllFit(w, worker.lease, turns, log, others, s)
    ensures Playable(s, es) && After(s, es).rows == trail[|log|] && w !in After(s, es).busy
    ensures After(s, es) == AfterIterations(w, worker.lease, turns, log, others, s)
    decreases |log|
  {
    es := [];
    if log != [] {
      assert worker.TurnIs(turns[0], trail[0], log[0], trail[1]);
      IterationIsARun(worker, w, turns[0], trail[0], log[0], trail[1], s, others[0].earlier, others[0].meanwhile);
      var first := IterationEvents(w, turns[0], worker.lease, log[0].claim, others[0].earlier, others[0].meanwhile);
      TurnsRest(worker, turns, trail, log);
      var rest := RunOnceIsARun(worker, w, turns[1..], trail[1..], log[1..], others[1..], After(s, first));
      PlayBoth(s, first, rest);
      es := first + rest;
    }
  }

  lemma TurnsRest(worker: OutboxTable.Worker, turns: seq<Turn>, trail: seq<map<OutboxId, Row>>, log: seq<Done>)
    requires worker.TurnsAre(turns, trail, log) && log != []
    ensures worker.TurnsAre(turns[1..], trail[1..], log[1..])
  {
    forall k | 0 <= k < |log[1..]|
      ensures worker.TurnIs(turns[1..][k], trail[1..][k], log[1..][k], trail[1..][k + 1])
    {
      assert log[1..][k] == log[k + 1];
    }
  }

  // The whole call, from the table before it to the table after it: the recovery first if it is asked for,
  // the iterations, and, unless the limit or the turns are used up, the last look at the table as the others
  // left it, which finds nothing to claim.
  lemma WholeCallIsARun(
    worker: OutboxTable.Worker, w: OutboxRuns.Worker, recoverAt: Option<int>, limit: nat, turns: seq<Turn>,
    trail: seq<map<OutboxId, Row>>, log: seq<Done>, rows: map<OutboxId, Row>, rows': map<OutboxId, Row>,
    others: seq<Interleaving>, lastLook: seq<Event>, s: System)
    returns (es: seq<Event>)
    requires worker.TurnsAre(turns, trail, log) && worker.lease > 0 && |log| == |others|
    requires trail[0] == if recoverAt.Some? then RecoveredRows(rows, recoverAt.value) else rows
    requires if Looks(limit, turns, log) then worker.Stuck(turns[|log|], trail[|log|], rows') else rows' == trail[|log|]
    requires s.rows == rows && w !in s.busy && (recoverAt.Some? ==> recoverAt.value <= s.now)
    requires AllFit(w, worker.lease, turns, log, others, Recovering(s, recoverAt))
    requires LastLookFits(w, limit, turns, log, lastLook,
                          AfterIterations(w, worker.lease, turns, log, others, Recovering(s, recoverAt)))
    ensures Playable(s, es) && After(s, es).rows == rows' && w !in After(s, es).busy
    ensures Looks(limit, turns, log) ==>
              var t := turns[|log|];
              && t.claimAt <= After(s, es).now
              && forall id :: !Candidate(After(s, es).rows, worker.destinations, t.locked, t.claimAt, id)
  {
    es := if recoverAt.Some? then [Recover(recoverAt.value)] else [];
    if recoverAt.Some? {
      RecoveryIsAnEvent(s, recoverAt.value);
      PlayOne(s, Recover(recoverAt.value));
    }
    var start := Recovering(s, recoverAt);
    var rest := RunOnceIsARun(worker, w, turns, trail, log, others, start);
    PlayBoth(s, es, rest);
    es := es + rest;
    if Looks(limit, turns, log) {
      PlayBoth(s, es, lastLook);
      es := es + lastLook;
    }
  }
}
