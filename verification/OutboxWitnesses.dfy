/** Runs that show the outbox bounds cannot be improved: the potential bound is reached, and without the
    timeliness of completions two adapter calls for one row do overlap. */
module OutboxWitnesses {
  import opened OutboxRow
  import opened OutboxRuns

  lemma ExtendRun(ss: seq<System>, es: seq<Event>, e: Event)
    requires Run(ss, es) && Enabled(ss[|es|], e)
    ensures Run(ss + [Apply(ss[|es|], e)], es + [e])
  {
    var (ss', es') := (ss + [Apply(ss[|es|], e)], es + [e]);
    forall k | 0 <= k < |es'|
      ensures StepOk(ss'[k], es'[k], ss'[k + 1])
    {
      if k < |es| {
        assert StepOk(ss[k], es[k], ss[k + 1]);
      }
    }
  }

  lemma {:induction false} StatusChangesOfPrefix(
    ss: seq<System>, es: seq<Event>, ss': seq<System>, es': seq<Event>, id: OutboxId, n: nat)
    requires Run(ss, es) && Run(ss', es') && n <= |es| && ss <= ss' && es <= es'
    ensures StatusChanges(ss', es', id, n) == StatusChanges(ss, es, id, n)
  {
    if n > 0 {
      StatusChangesOfPrefix(ss, es, ss', es', id, n - 1);
      assert StepOk(ss[n - 1], es[n - 1], ss[n]);
      assert ss'[n - 1] == ss[n - 1] && es'[n - 1] == es[n - 1];
    }
  }

  // One more event adds what it flushes.
  lemma OneMoreEvent(ss: seq<System>, es: seq<Event>, e: Event, id: OutboxId)
      returns (ss': seq<System>, es': seq<Event>)
    requires Run(ss, es) && Enabled(ss[|es|], e) && id in ss[|es|].rows
    ensures Run(ss', es') && |es'| == |es| + 1 && ss'[|es'|] == Apply(ss[|es|], e)
    ensures StatusChanges(ss', es', id, |es'|) == StatusChanges(ss, es, id, |es|) + |Flushes(ss[|es|], e, id)|
  {
    ExtendRun(ss, es, e);
    ss', es' := ss + [Apply(ss[|es|], e)], es + [e];
    StatusChangesOfPrefix(ss, es, ss', es', id, |es|);
    assert StepOk(ss'[|es|], es'[|es|], ss'[|es'|]);
  }

  // A row given one attempt at a time, failed at once and requeued every time, k attempts long.
  lemma {:induction false} LongLife(envelope: Envelope, k: nat) returns (ss: seq<System>, es: seq<Event>)
    requires 1 <= k <= 20
    ensures Run(ss, es) && ss[|es|].now == 0 && ss[|es|].rows.Keys == {0}
    ensures var r := ss[|es|].rows[0]; r.status == Failed && r.attemptCount == r.maxAttempts == k
    ensures forall t: Token :: t >= k ==> t !in ss[|es|].issued
    ensures StatusChanges(ss, es, 0, |es|) == 3 * k - 1
  {
    if k == 1 {
      var e := Enqueue(0, envelope, 1, 0);
      ss, es := [EMPTY], [];
      ExtendRun(ss, es, e);
      ss, es := ss + [Apply(EMPTY, e)], [e];
      assert StatusChanges(ss, es, 0, 0) == 0;
    } else {
      ss, es := LongLife(envelope, k - 1);
      ss, es := OneMoreEvent(ss, es, Requeue(0, 1, 0), 0);
    }
    ss, es := OneMoreEvent(ss, es, ClaimAndFail(0, k - 1, 0, 1, PayloadInvalid), 0);
  }

  // 59 status changes in one life are possible.
  lemma LifeBoundIsReached(envelope: Envelope) returns (ss: seq<System>, es: seq<Event>)
    ensures Run(ss, es) && StatusChanges(ss, es, 0, |es|) == 59
  {
    ss, es := LongLife(envelope, 20);
  }

  // A call that outlives its lease: recovery hands the row to a second worker while the first still calls.
  lemma LateCallsOverlap(envelope: Envelope, lease: int) returns (ss: seq<System>, es: seq<Event>)
    requires lease > 0
    ensures Run(ss, es)
    ensures var s := ss[|es|];
            && 1 in s.busy && 2 in s.busy && s.busy[1].stage == s.busy[2].stage == InCall
            && s.busy[1].claim.id == s.busy[2].claim.id && s.now == s.busy[1].claim.leaseExpiresAt
  {
    ss, es := FirstCallOutlivesItsLease(envelope, lease);
    ss, es := NextEvent(ss, es, Recover(lease));
    ss, es := NextEvent(ss, es, ClaimNext(2, 0, 1, lease, lease));
    ss, es := NextEvent(ss, es, StartCall(2));
  }

  lemma FirstCallOutlivesItsLease(envelope: Envelope, lease: int) returns (ss: seq<System>, es: seq<Event>)
    requires lease > 0
    ensures Run(ss, es)
    ensures ss[|es|] == System(lease, map[0 := Claimed(NewRow(envelope, 2, 0), 0, 0, lease)],
                               map[1 := Busy(Claim(0, 0, 1, lease), InCall)], {0})
  {
    ss, es := [EMPTY], [];
    ss, es := NextEvent(ss, es, Enqueue(0, envelope, 2, 0));
    ss, es := NextEvent(ss, es, ClaimNext(1, 0, 0, 0, lease));
    ss, es := NextEvent(ss, es, StartCall(1));
    ss, es := NextEvent(ss, es, Tick(lease));
  }

  lemma NextEvent(ss: seq<System>, es: seq<Event>, e: Event) returns (ss': seq<System>, es': seq<Event>)
    requires Run(ss, es) && Enabled(ss[|es|], e)
    ensures Run(ss', es') && |es'| == |es| + 1 && ss'[|es'|] == Apply(ss[|es|], e)
  {
    ExtendRun(ss, es, e);
    ss', es' := ss + [Apply(ss[|es|], e)], es + [e];
  }
}
