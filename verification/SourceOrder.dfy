/** Sources that are read in order: which records are skipped for good, and exactly when. */
module SourceOrder {
  import opened Spool
  import opened AgentPipeline
  import opened EventLoss

  // All that each source ever yields, in its order, with cursors that do not recur. This is so of the
  // journal and of tailed files; integrity scans yield cursors again and are not ordered sources.
  predicate Ordered(sources: map<Source, seq<Record>>) {
    forall name, i, j | name in sources && 0 <= i < j < |sources[name]| ::
      sources[name][i].cursor != sources[name][j].cursor
  }

  // Where reading starts without a saved cursor, source by source: the oldest record still available, or
  // one among the newest. It depends on the moment of the read.
  type Starts = map<Source, nat>

  // The saved cursor is that of the record just before position n.
  predicate SavedAt(records: seq<Record>, cursors: map<Source, Cursor>, name: Source, n: nat) {
    name in cursors && 0 < n <= |records| && cursors[name] == records[n - 1].cursor
  }

  // A source is read on after its saved cursor, and from its start of the moment without one.
  ghost predicate ReadsAt(sources: map<Source, seq<Record>>, starts: Starts, p: Pipeline, s: Step, n: nat)
    requires s.Collect?
  {
    && s.source in sources && n < |sources[s.source]| && sources[s.source][n] == s.record
    && (if s.source in p.spool.cursors then SavedAt(sources[s.source], p.spool.cursors, s.source, n)
        else s.source in starts && n == starts[s.source])
  }

  ghost predicate ReadsInOrder(
    sources: map<Source, seq<Record>>, at: seq<Starts>, ps: seq<Pipeline>, es: seq<Step>)
  {
    && |at| == |es| && |ps| == |es| + 1
    && forall k {:trigger es[k]} | 0 <= k < |es| && es[k].Collect? ::
         exists n :: ReadsAt(sources, at[k], ps[k], es[k], n)
  }

  // Every record before the saved cursor was committed.
  ghost predicate NothingSkipped(p: Pipeline, records: seq<Record>, name: Source) {
    forall n: nat, i | SavedAt(records, p.spool.cursors, name, n) && 0 <= i < n :: (name, records[i]) in p.committed
  }

  // The step commits the record at which a read without a saved cursor starts, above one that is not
  // committed.
  ghost predicate JumpsOver(p: Pipeline, s: Step, records: seq<Record>, name: Source) {
    && s.Collect? && s.source == name && name !in p.spool.cursors
    && Accepted(Persisted(p.spool, name, s.record, s.now).1)
    && exists n: nat, i: nat :: i < n < |records| && records[n] == s.record && (name, records[i]) !in p.committed
  }

  lemma PositionIsUnique(sources: map<Source, seq<Record>>, name: Source, i: nat, j: nat)
    requires Ordered(sources) && name in sources && i < |sources[name]| && j < |sources[name]|
    requires sources[name][i].cursor == sources[name][j].cursor
    ensures i == j
  {
  }

  // Whatever the interleaving with full spools, crashes, lost replies, rebases and what is still available
  // of the source: no record before the saved cursor is ever left out if and only if no read without a
  // cursor ever starts above a record that is not committed.
  lemma SkipsExactlyWhenJumping(
    sources: map<Source, seq<Record>>, at: seq<Starts>, ps: seq<Pipeline>, es: seq<Step>, maxEvents: nat,
    configured: nat, name: Source)
    requires Run(ps, es, maxEvents, configured) && Ordered(sources) && name in sources
    requires ReadsInOrder(sources, at, ps, es)
    ensures (forall k :: 0 <= k < |ps| ==> NothingSkipped(ps[k], sources[name], name))
            <==> (forall k :: 0 <= k < |es| ==> !JumpsOver(ps[k], es[k], sources[name], name))
  {
    if forall k :: 0 <= k < |es| ==> !JumpsOver(ps[k], es[k], sources[name], name) {
      forall k | 0 <= k < |ps|
        ensures NothingSkipped(ps[k], sources[name], name)
      {
        NoJumpNoSkip(sources, at, ps, es, maxEvents, configured, name, k);
      }
    } else {
      var k :| 0 <= k < |es| && JumpsOver(ps[k], es[k], sources[name], name);
      assert StepOk(ps[k], es[k], ps[k + 1]);
      JumpSkips(sources, ps[k], es[k], name);
      assert !NothingSkipped(ps[k + 1], sources[name], name);
    }
  }

  lemma {:induction false} NoJumpNoSkip(
    sources: map<Source, seq<Record>>, at: seq<Starts>, ps: seq<Pipeline>, es: seq<Step>, maxEvents: nat,
    configured: nat, name: Source, k: nat)
    requires Run(ps, es, maxEvents, configured) && Ordered(sources) && name in sources && k < |ps|
    requires ReadsInOrder(sources, at, ps, es)
    requires forall m :: 0 <= m < k ==> !JumpsOver(ps[m], es[m], sources[name], name)
    ensures NothingSkipped(ps[k], sources[name], name)
  {
    if k > 0 {
      NoJumpNoSkip(sources, at, ps, es, maxEvents, configured, name, k - 1);
      assert StepOk(ps[k - 1], es[k - 1], ps[k]);
      var s := es[k - 1];
      if s.Collect? && s.source == name {
        var n :| ReadsAt(sources, at[k - 1], ps[k - 1], s, n);
        CollectKeepsOrder(sources, at[k - 1], ps[k - 1], s, name, n);
      } else {
        OtherStepsKeepOrder(ps[k - 1], s, sources[name], name);
      }
    }
  }

  // A record is committed and becomes the saved position, or nothing moves.
  lemma CollectedCursor(p: Pipeline, s: Step)
    requires s.Collect?
    ensures var p' := Apply(p, s);
            if Accepted(Persisted(p.spool, s.source, s.record, s.now).1)
            then p'.spool.cursors == p.spool.cursors[s.source := s.record.cursor]
                 && p'.committed == p.committed + {(s.source, s.record)}
            else p'.spool.cursors == p.spool.cursors && p'.committed == p.committed
  {
    PersistFacts(p.spool, s.source, s.record, s.now);
  }

  lemma OtherStepsKeepOrder(p: Pipeline, s: Step, records: seq<Record>, name: Source)
    requires Enabled(p, s) && NothingSkipped(p, records, name) && !(s.Collect? && s.source == name)
    ensures NothingSkipped(Apply(p, s), records, name)
  {
    if s.Collect? { CollectedCursor(p, s); }
    var p' := Apply(p, s);
    assert name in p'.spool.cursors ==> name in p.spool.cursors && p'.spool.cursors[name] == p.spool.cursors[name];
    assert p.committed <= p'.committed;
    forall n: nat, i | SavedAt(records, p'.spool.cursors, name, n) && 0 <= i < n
      ensures (name, records[i]) in p'.committed
    {
      assert SavedAt(records, p.spool.cursors, name, n);
    }
  }

  lemma CollectKeepsOrder(
    sources: map<Source, seq<Record>>, starts: Starts, p: Pipeline, s: Step, name: Source, n: nat)
    requires Ordered(sources) && name in sources && s.Collect? && s.source == name && ReadsAt(sources, starts, p, s, n)
    requires NothingSkipped(p, sources[name], name) && !JumpsOver(p, s, sources[name], name)
    ensures NothingSkipped(Apply(p, s), sources[name], name)
  {
    var (records, p') := (sources[name], Apply(p, s));
    CollectedCursor(p, s);
    forall m: nat, i | SavedAt(records, p'.spool.cursors, name, m) && 0 <= i < m
      ensures (name, records[i]) in p'.committed
    {
      if Accepted(Persisted(p.spool, name, s.record, s.now).1) {
        PositionIsUnique(sources, name, m - 1, n);
        if i < n && name in p.spool.cursors { assert SavedAt(records, p.spool.cursors, name, n); }
      } else {
        assert SavedAt(records, p.spool.cursors, name, m);
      }
    }
  }

  lemma JumpSkips(sources: map<Source, seq<Record>>, p: Pipeline, s: Step, name: Source)
    requires Ordered(sources) && name in sources && JumpsOver(p, s, sources[name], name)
    ensures !NothingSkipped(Apply(p, s), sources[name], name)
  {
    var records := sources[name];
    var n: nat, i: nat :| i < n < |records| && records[n] == s.record && (name, records[i]) !in p.committed;
    CollectedCursor(p, s);
    PositionIsUniqueAll(sources, name);
    assert SavedAt(records, Apply(p, s).spool.cursors, name, n + 1);
    assert (name, records[i]) !in Apply(p, s).committed;
  }

  lemma PositionIsUniqueAll(sources: map<Source, seq<Record>>, name: Source)
    requires Ordered(sources) && name in sources
    ensures var records := sources[name];
            forall i, j | 0 <= i < |records| && 0 <= j < |records| && records[i] == records[j] :: i == j
  {
  }

  // ---------------------------------------------------------------- what is skipped stays skipped

  // The record is not committed, and the saved cursor, if any, is past it.
  ghost predicate Behind(p: Pipeline, records: seq<Record>, name: Source, i: nat)
    requires i < |records|
  {
    && (name, records[i]) !in p.committed
    && (name in p.spool.cursors ==> exists n: nat :: i < n && SavedAt(records, p.spool.cursors, name, n))
  }

  // A record that the saved cursor is past stays uncommitted for as long as reading without a cursor
  // starts above it: once it is no longer available, for good.
  lemma {:induction false} SkippedForGood(
    sources: map<Source, seq<Record>>, at: seq<Starts>, ps: seq<Pipeline>, es: seq<Step>, maxEvents: nat,
    configured: nat, name: Source, i: nat, j: nat, k: nat)
    requires Run(ps, es, maxEvents, configured) && Ordered(sources) && name in sources && i < |sources[name]|
    requires ReadsInOrder(sources, at, ps, es) && j <= k < |ps| && Behind(ps[j], sources[name], name, i)
    requires forall m | j <= m < k && name in at[m] :: i < at[m][name]
    ensures Behind(ps[k], sources[name], name, i)
    decreases k
  {
    if j < k {
      SkippedForGood(sources, at, ps, es, maxEvents, configured, name, i, j, k - 1);
      assert StepOk(ps[k - 1], es[k - 1], ps[k]);
      var s := es[k - 1];
      if s.Collect? && s.source == name {
        var n :| ReadsAt(sources, at[k - 1], ps[k - 1], s, n);
        CollectStaysBehind(sources, at[k - 1], ps[k - 1], s, name, n, i);
      } else {
        OthersStayBehind(ps[k - 1], s, sources[name], name, i);
      }
    }
  }

  lemma CollectStaysBehind(
    sources: map<Source, seq<Record>>, starts: Starts, p: Pipeline, s: Step, name: Source, n: nat, i: nat)
    requires Ordered(sources) && name in sources && i < |sources[name]| && s.Collect? && s.source == name
    requires ReadsAt(sources, starts, p, s, n) && Behind(p, sources[name], name, i)
    requires name in starts ==> i < starts[name]
    ensures Behind(Apply(p, s), sources[name], name, i)
  {
    var records := sources[name];
    CollectedCursor(p, s);
    if name in p.spool.cursors {
      var m: nat :| i < m && SavedAt(records, p.spool.cursors, name, m);
      PositionIsUnique(sources, name, m - 1, n - 1);
    }
    PositionIsUniqueAll(sources, name);
    if Accepted(Persisted(p.spool, name, s.record, s.now).1) {
      assert SavedAt(records, Apply(p, s).spool.cursors, name, n + 1);
    }
  }

  lemma OthersStayBehind(p: Pipeline, s: Step, records: seq<Record>, name: Source, i: nat)
    requires Enabled(p, s) && i < |records| && Behind(p, records, name, i) && !(s.Collect? && s.source == name)
    ensures Behind(Apply(p, s), records, name, i)
  {
    if s.Collect? { CollectedCursor(p, s); }
    var p' := Apply(p, s);
    if name in p'.spool.cursors {
      var n: nat :| i < n && SavedAt(records, p.spool.cursors, name, n);
      assert SavedAt(records, p'.spool.cursors, name, n);
    }
  }

  // And it happens: the cursor is given up because its file was renamed or the journal dropped it, and what
  // is still available starts above a record that was not committed.
  lemma SkippingIsReachable(name: Source, a: Record, b: Record, c: Record, maxEvents: nat, configured: nat)
    returns (ps: seq<Pipeline>, es: seq<Step>, at: seq<Starts>)
    requires a.cursor != b.cursor && b.cursor != c.cursor && a.cursor != c.cursor && 2 <= maxEvents
    requires CursorFits(a.cursor) && CursorFits(c.cursor) && 1 <= configured <= 100
    ensures Run(ps, es, maxEvents, configured) && es == [Collect(name, a, 0), Rebase(name), Collect(name, c, 0)]
    ensures var sources := map[name := [a, b, c]];
            && Ordered(sources) && ReadsInOrder(sources, at, ps, es)
            && at == [map[name := 0], map[name := 2], map[name := 2]]
            && !NothingSkipped(ps[3], [a, b, c], name) && Behind(ps[3], [a, b, c], name, 1)
  {
    es := [Collect(name, a, 0), Rebase(name), Collect(name, c, 0)];
    at := [map[name := 0], map[name := 2], map[name := 2]];
    var p0 := Init(maxEvents, configured);
    var p1 := Apply(p0, es[0]);
    FirstIsAccepted(p0.spool, name, a);
    CollectedCursor(p0, es[0]);
    var p2 := Apply(p1, es[1]);
    FirstIsAccepted(p2.spool, name, c);
    CollectedCursor(p2, es[2]);
    ps := [p0, p1, p2, Apply(p2, es[2])];
    var sources := map[name := [a, b, c]];
    assert ReadsAt(sources, at[0], ps[0], es[0], 0) && ReadsAt(sources, at[2], ps[2], es[2], 2);
    assert SavedAt([a, b, c], ps[3].spool.cursors, name, 3);
    assert [a, b, c][1] == b && (name, b) !in ps[3].committed;
  }

  lemma FirstIsAccepted(s: State, name: Source, r: Record)
    requires CursorFits(r.cursor) && |s.rows| < s.maxEvents
    ensures Accepted(Persisted(s, name, r, 0).1)
  {
  }

  // ---------------------------------------------------------------- what is read is safe

  // As long as no record is jumped over, the id of every record up to the saved cursor that makes an event
  // is safe, and the event itself if committed records with equal cursors make equal events.
  lemma EverythingReadIsSafe(
    sources: map<Source, seq<Record>>, at: seq<Starts>, ps: seq<Pipeline>, es: seq<Step>, maxEvents: nat,
    configured: nat, name: Source, k: nat, n: nat, i: nat)
    requires Run(ps, es, maxEvents, configured) && Ordered(sources) && name in sources && k < |ps|
    requires ReadsInOrder(sources, at, ps, es)
    requires forall m :: 0 <= m < k ==> !JumpsOver(ps[m], es[m], sources[name], name)
    requires SavedAt(sources[name], ps[k].spool.cursors, name, n) && i < n && sources[name][i].body.Some?
    ensures (name, sources[name][i]) in ps[k].committed && Safe(ps[k], IdOf(sources[name][i].cursor))
    ensures UnambiguousSoFar(ps[k]) ==> EventSafe(ps[k], sources[name][i])
  {
    NoJumpNoSkip(sources, at, ps, es, maxEvents, configured, name, k);
    InvariantAt(ps, es, maxEvents, configured, k);
    if UnambiguousSoFar(ps[k]) {
      CommittedFit(ps, es, maxEvents, configured, k);
      EventsAreSafe(ps[k]);
    }
  }
}
