/** Exactly when a claim is lost and when two workers can be at work on one row: when a recovery reads a
    clock at or past the lease of a claim in progress. */
module OutboxOverlap {
  import opened OutboxRow
  import opened OutboxRuns

  // No recovery reads a clock at or past the lease of a claim that still owns its row.
  ghost predicate NoLateRecovery(ss: seq<System>, es: seq<Event>)
    requires |ss| == |es| + 1
  {
    forall k {:trigger es[k]} :: 0 <= k < |es| ==> OnTime(ss[k], es[k])
  }

  ghost predicate OnTime(s: System, e: Event) {
    e.Recover? ==> forall v :: v in s.busy && Owns(s, v) ==> e.at < s.busy[v].claim.leaseExpiresAt
  }

  ghost predicate AllOwned(s: System) {
    forall v :: v in s.busy ==> Owns(s, v)
  }

  // No two workers are at work on the same row.
  ghost predicate Exclusive(s: System) {
    forall v, w :: v in s.busy && w in s.busy && v != w ==> s.busy[v].claim.id != s.busy[w].claim.id
  }

  // In any run, every claim in progress owns its row all the time if and only if no recovery is late.
  lemma OwnedExactlyWithoutLateRecovery(ss: seq<System>, es: seq<Event>)
    requires Run(ss, es)
    ensures (forall k :: 0 <= k < |ss| ==> AllOwned(ss[k])) <==> NoLateRecovery(ss, es)
  {
    if NoLateRecovery(ss, es) {
      forall k | 0 <= k < |ss|
        ensures AllOwned(ss[k])
      {
        OwnedUpTo(ss, es, k);
      }
    }
    if forall k :: 0 <= k < |ss| ==> AllOwned(ss[k]) {
      forall k | 0 <= k < |es|
        ensures OnTime(ss[k], es[k])
      {
        RunStep(ss, es, k);
        assert AllOwned(ss[k + 1]);
        LateMeansLost(ss[k], es[k]);
      }
    }
  }

  lemma LateMeansLost(s: System, e: Event)
    requires Inv(s) && Enabled(s, e) && AllOwned(Apply(s, e))
    ensures OnTime(s, e)
  {
    if e.Recover? {
      forall v | v in s.busy && Owns(s, v)
        ensures e.at < s.busy[v].claim.leaseExpiresAt
      {
        OwnershipStep(s, e, v);
      }
    }
  }

  lemma {:induction false} OwnedUpTo(ss: seq<System>, es: seq<Event>, k: nat)
    requires Run(ss, es) && NoLateRecovery(ss, es) && k < |ss|
    ensures AllOwned(ss[k])
  {
    if k > 0 {
      OwnedUpTo(ss, es, k - 1);
      RunStep(ss, es, k - 1);
      assert OnTime(ss[k - 1], es[k - 1]);
      OwnedStep(ss[k - 1], es[k - 1]);
    }
  }

  lemma OwnedStep(s: System, e: Event)
    requires Inv(s) && Enabled(s, e) && AllOwned(s) && OnTime(s, e)
    ensures AllOwned(Apply(s, e))
  {
    forall v | v in Apply(s, e).busy
      ensures Owns(Apply(s, e), v)
    {
      if v in s.busy && !Leaves(e, v) {
        OwnershipStep(s, e, v);
      }
    }
  }

  // Then no two adapter calls for one row overlap and no completion is lost, whatever the leases.
  lemma NoLateRecoveryNoOverlap(ss: seq<System>, es: seq<Event>)
    requires Run(ss, es) && NoLateRecovery(ss, es)
    ensures forall k :: 0 <= k < |ss| ==> Exclusive(ss[k])
    ensures forall k :: 0 <= k < |es| && es[k].Complete? ==> Effective(ss[k], es[k])
  {
    OwnedExactlyWithoutLateRecovery(ss, es);
    forall k | 0 <= k < |ss|
      ensures Exclusive(ss[k])
    {
      InvariantAt(ss, es, k);
      assert AllOwned(ss[k]);
      OwnersAreExclusive(ss[k]);
    }
    forall k | 0 <= k < |es| && es[k].Complete?
      ensures Effective(ss[k], es[k])
    {
      RunStep(ss, es, k);
      assert AllOwned(ss[k]);
    }
  }

  lemma OwnersAreExclusive(s: System)
    requires Inv(s) && AllOwned(s)
    ensures Exclusive(s)
  {
  }

  // While v is at work since its claim at i, a second worker can claim the row exactly when some recovery
  // since then read a clock at or past v's lease and the row is due; then both are at work on it.
  lemma OverlapOpensExactly(
    ss: seq<System>, es: seq<Event>, i: nat, k: nat, v: Worker, w: Worker, token: Token, at: int, lease: int)
    requires Run(ss, es) && i < k < |ss| && es[i].ClaimNext? && es[i].w == v
    requires forall m :: i < m < k ==> !Leaves(es[m], v)
    requires w !in ss[k].busy && token !in ss[k].issued && at <= ss[k].now && lease > 0
    ensures es[i].id in ss[k].rows && v in ss[k].busy && ss[k].busy[v].claim.id == es[i].id
    ensures var e := ClaimNext(w, es[i].id, token, at, lease);
            && (Enabled(ss[k], e) <==>
                  RecoveredPast(es, i, k, es[i].at + es[i].lease) && Due(ss[k].rows[es[i].id], at))
            && (Enabled(ss[k], e) ==> !Exclusive(Apply(ss[k], e)))
  {
    OwnershipOverRun(ss, es, i, k, v);
    RowsPersist(ss, es, i, k, es[i].id);
    ClaimOverlaps(ss[k], v, w, es[i].id, token, at, lease);
  }

  lemma ClaimOverlaps(s: System, v: Worker, w: Worker, id: OutboxId, token: Token, at: int, lease: int)
    requires v in s.busy && s.busy[v].claim.id == id && w !in s.busy && id in s.rows
    ensures var e := ClaimNext(w, id, token, at, lease);
            Enabled(s, e) ==> !Owns(s, v) && !Exclusive(Apply(s, e))
  {
    var e := ClaimNext(w, id, token, at, lease);
    if Enabled(s, e) {
      var s' := Apply(s, e);
      assert v in s'.busy && w in s'.busy && s'.busy[v].claim.id == s'.busy[w].claim.id;
    }
  }

  // A late recovery makes the row due at once if it has attempts left, and fails it otherwise.
  lemma LateRecoveryOpens(ss: seq<System>, es: seq<Event>, k: nat, v: Worker)
    requires Run(ss, es) && k < |es| && es[k].Recover? && v in ss[k].busy && Owns(ss[k], v)
    requires ss[k].busy[v].claim.leaseExpiresAt <= es[k].at
    ensures v in ss[k + 1].busy && !Owns(ss[k + 1], v)
    ensures var id := ss[k].busy[v].claim.id; var r := ss[k].rows[id];
            && id in ss[k + 1].rows
            && (if r.attemptCount < r.maxAttempts then Due(ss[k + 1].rows[id], es[k].at)
                else ss[k + 1].rows[id].status == Failed)
  {
    RunStep(ss, es, k);
    OwnershipStep(ss[k], es[k], v);
  }

  // Whoever is at work claimed the row and has not left since.
  lemma {:induction false} WhoClaimed(ss: seq<System>, es: seq<Event>, k: nat, v: Worker) returns (i: nat)
    requires Run(ss, es) && k < |ss| && v in ss[k].busy
    ensures i < k && es[i].ClaimNext? && es[i].w == v && es[i].id == ss[k].busy[v].claim.id
    ensures forall m :: i < m < k ==> !Leaves(es[m], v)
    ensures es[i].at + es[i].lease == ss[k].busy[v].claim.leaseExpiresAt
  {
    assert StepOk(ss[k - 1], es[k - 1], ss[k]);
    i := k - 1;
    ClaimsOrStays(ss[k - 1], es[k - 1], v);
    if v in ss[k - 1].busy {
      i := WhoClaimed(ss, es, k - 1, v);
    }
  }

  lemma ClaimsOrStays(s: System, e: Event, v: Worker)
    requires Enabled(s, e) && v in Apply(s, e).busy
    ensures var claim := Apply(s, e).busy[v].claim;
            if v in s.busy then s.busy[v].claim == claim && !Leaves(e, v)
            else e.ClaimNext? && e.w == v && e.id == claim.id && e.at + e.lease == claim.leaseExpiresAt
  {
  }

  // And whenever two workers are at work on one row, the lease of the one that claimed first was passed
  // by a recovery between the two claims.
  lemma OverlapNeedsRecovery(ss: seq<System>, es: seq<Event>, k: nat, v: Worker, w: Worker)
    returns (i: nat, j: nat)
    requires Run(ss, es) && k < |ss| && v in ss[k].busy && w in ss[k].busy && v != w
    requires ss[k].busy[v].claim.id == ss[k].busy[w].claim.id
    ensures i < j < k && es[i].ClaimNext? && es[j].ClaimNext? && {es[i].w, es[j].w} == {v, w}
    ensures es[i].id == es[j].id == ss[k].busy[v].claim.id
    ensures RecoveredPast(es, i, j, es[i].at + es[i].lease)
  {
    var a := WhoClaimed(ss, es, k, v);
    var b := WhoClaimed(ss, es, k, w);
    i, j := if a < b then a else b, if a < b then b else a;
    OwnershipOverRun(ss, es, i, j, es[i].w);
    RunStep(ss, es, j);
  }
}
