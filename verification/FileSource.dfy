/** A tailed file as a source of the agent: the tailer and the pipeline move together when a line is
    committed or a saved cursor is given up, and on their own otherwise. */
module FileSource {
  import opened Prelude
  import Spool
  import Pipe = AgentPipeline
  import Loss = EventLoss
  import Files = FollowedFile
  import Tail = TailerRuns

  // The name of the source, how a cursor is written, and what normalization makes of a line's text.
  datatype Setup = Setup(name: string, write: Files.Cursor -> string, event: seq<Files.Byte> -> Option<string>)

  function RecordOf(u: Setup, line: Files.RawLine): Pipe.Record {
    Pipe.Record(u.write(line.cursor), u.event(line.text))
  }

  datatype Move =
    | TailMoves(e: Tail.Event)
    | PipeMoves(s: Pipe.Step)
    | CommitLine(now: int)
    | GiveUpCursor

  // The spool takes the record that the step collects.
  predicate Takes(p: Pipe.Pipeline, s: Pipe.Step) {
    s.Collect? && Pipe.Accepted(Pipe.Persisted(p.spool, s.source, s.record, s.now).1)
  }

  // A restart that finds the saved cursor of another file than the one at the path.
  predicate GivesUp(t: Tail.Tail)
    requires Tail.Shape(t)
  {
    t.saved.Some? && !Tail.Resumes(t)
  }

  // What a move is for each of the two.
  function TailEvent(m: Move): Option<Tail.Event> {
    match m
    case TailMoves(e) => Some(e)
    case PipeMoves(_) => None
    case CommitLine(_) => Some(Tail.Commit)
    case GiveUpCursor => Some(Tail.Restart)
  }

  function PipeStep(u: Setup, t: Tail.Tail, m: Move): Option<Pipe.Step> {
    match m
    case TailMoves(_) => None
    case PipeMoves(s) => Some(s)
    case CommitLine(now) =>
      if t.committed < |t.emitted| then Some(Pipe.Collect(u.name, RecordOf(u, t.emitted[t.committed]), now)) else None
    case GiveUpCursor => Some(Pipe.Rebase(u.name))
  }

  // On its own the tailer does not commit or give up its cursor, and the pipeline, which does everything
  // else with any number of other sources, takes no record of this one and does not clear its cursor.
  predicate Allowed(u: Setup, p: Pipe.Pipeline, t: Tail.Tail, m: Move)
    requires Tail.Shape(t)
  {
    match m
    case TailMoves(e) => !e.Commit? && (e.Restart? ==> !GivesUp(t))
    case PipeMoves(s) => (s.Collect? && s.source == u.name ==> !Takes(p, s)) && !(s.Rebase? && s.source == u.name)
    case CommitLine(_) => t.committed < |t.emitted| && Takes(p, PipeStep(u, t, m).value)
    case GiveUpCursor => GivesUp(t)
  }

  ghost predicate MoveOk(
    u: Setup, p: Pipe.Pipeline, t: Tail.Tail, m: Move, p': Pipe.Pipeline, t': Tail.Tail)
  {
    && Tail.Shape(t) && Allowed(u, p, t, m)
    && (match TailEvent(m) case None => t' == t case Some(e) => Tail.StepOk(t, e, t'))
    && (match PipeStep(u, t, m) case None => p' == p case Some(s) => Pipe.StepOk(p, s, p'))
  }

  ghost predicate Run(
    u: Setup, ps: seq<Pipe.Pipeline>, ts: seq<Tail.Tail>, ms: seq<Move>, maxEvents: nat, configured: nat)
  {
    && |ps| == |ts| == |ms| + 1 && 1 <= maxEvents && 1 <= configured <= 100
    && ps[0] == Pipe.Init(maxEvents, configured) && ts[0] == Tail.FRESH
    && forall k {:trigger ms[k]} :: 0 <= k < |ms| ==> MoveOk(u, ps[k], ts[k], ms[k], ps[k + 1], ts[k + 1])
  }

  // An emitted line whose cursor fits can be committed at once, if there is room or it needs none.
  lemma EmittedLineCanBeCommitted(u: Setup, p: Pipe.Pipeline, t: Tail.Tail, now: int)
    requires Tail.Shape(t) && t.committed < |t.emitted|
    requires var r := RecordOf(u, t.emitted[t.committed]);
             && 1 <= |r.cursor| <= 4096
             && (r.body.None? || Spool.IdOf(r.cursor) in Spool.Ids(p.spool.rows) || |p.spool.rows| < p.spool.maxEvents)
    ensures var m := CommitLine(now);
            && Allowed(u, p, t, m)
            && var (p', t') := (Pipe.Apply(p, PipeStep(u, t, m).value), Tail.Apply(t, Tail.Commit));
               && MoveOk(u, p, t, m, p', t') && t'.committed == t.committed + 1
               && (u.name, RecordOf(u, t.emitted[t.committed])) in p'.committed
  {
  }

  // Every line that the tailer counts as committed is a committed record of the pipeline.
  ghost predicate Linked(u: Setup, p: Pipe.Pipeline, t: Tail.Tail) {
    && t.committed <= |t.emitted|
    && forall i :: 0 <= i < t.committed ==> (u.name, RecordOf(u, t.emitted[i])) in p.committed
  }

  // And the saved cursor is the one the spool holds.
  predicate SameCursor(u: Setup, p: Pipe.Pipeline, t: Tail.Tail) {
    && (u.name in p.spool.cursors <==> t.saved.Some?)
    && (t.saved.Some? ==> p.spool.cursors[u.name] == u.write(t.saved.value))
  }

  lemma TakenRecord(p: Pipe.Pipeline, s: Pipe.Step)
    requires s.Collect?
    ensures var p' := Pipe.Apply(p, s);
            if Takes(p, s)
            then p'.spool.cursors == p.spool.cursors[s.source := s.record.cursor]
                 && p'.committed == p.committed + {(s.source, s.record)}
            else p'.spool.cursors == p.spool.cursors && p'.committed == p.committed
  {
    Pipe.PersistFacts(p.spool, s.source, s.record, s.now);
  }

  lemma PipeAlone(u: Setup, p: Pipe.Pipeline, t: Tail.Tail, s: Pipe.Step)
    requires Pipe.Enabled(p, s) && Linked(u, p, t) && SameCursor(u, p, t)
    requires (s.Collect? && s.source == u.name ==> !Takes(p, s)) && !(s.Rebase? && s.source == u.name)
    ensures Linked(u, Pipe.Apply(p, s), t) && SameCursor(u, Pipe.Apply(p, s), t)
  {
    if s.Collect? { TakenRecord(p, s); }
    assert p.committed <= Pipe.Apply(p, s).committed;
  }

  // The tailer on its own keeps the lines it has committed.
  lemma TailAlone(t: Tail.Tail, e: Tail.Event)
    requires Tail.Shape(t) && Tail.Enabled(t, e) && !e.Commit? && (e.Restart? ==> !GivesUp(t))
    ensures var t' := Tail.Apply(t, e);
            && t'.committed == t.committed && t'.saved == t.saved && t.committed <= |t'.emitted|
            && t'.emitted[..t.committed] == t.emitted[..t.committed]
  {
  }

  lemma MoveKeepsLink(u: Setup, p: Pipe.Pipeline, t: Tail.Tail, m: Move, p': Pipe.Pipeline, t': Tail.Tail)
    requires MoveOk(u, p, t, m, p', t') && Linked(u, p, t) && SameCursor(u, p, t)
    ensures Linked(u, p', t') && SameCursor(u, p', t')
  {
    match m
    case TailMoves(e) =>
      TailAlone(t, e);
      assert forall i :: 0 <= i < t.committed ==> t'.emitted[i] == t'.emitted[..t.committed][i];
      assert forall i :: 0 <= i < t.committed ==> t.emitted[i] == t.emitted[..t.committed][i];
    case PipeMoves(s) => PipeAlone(u, p, t, s);
    case CommitLine(now) => TakenRecord(p, PipeStep(u, t, m).value);
    case GiveUpCursor =>
  }

  ghost predicate NoLosingStep(ts: seq<Tail.Tail>, ms: seq<Move>, k: nat) {
    k <= |ms| && k <= |ts|
    && forall i | 0 <= i < k && TailEvent(ms[i]).Some? ::
         Tail.Shape(ts[i]) && !Tail.Loses(ts[i], TailEvent(ms[i]).value)
  }

  lemma {:induction false} JointInvariant(
    u: Setup, ps: seq<Pipe.Pipeline>, ts: seq<Tail.Tail>, ms: seq<Move>, maxEvents: nat, configured: nat, k: nat)
    requires Run(u, ps, ts, ms, maxEvents, configured) && k < |ps| && NoLosingStep(ts, ms, k)
    ensures Pipe.Inv(ps[k]) && Tail.Exact(ts[k]) && Linked(u, ps[k], ts[k]) && SameCursor(u, ps[k], ts[k])
    ensures forall sr :: sr in ps[k].committed ==> Spool.CursorFits(sr.1.cursor)
  {
    if k > 0 {
      JointInvariant(u, ps, ts, ms, maxEvents, configured, k - 1);
      assert MoveOk(u, ps[k - 1], ts[k - 1], ms[k - 1], ps[k], ts[k]);
      MoveKeepsLink(u, ps[k - 1], ts[k - 1], ms[k - 1], ps[k], ts[k]);
      PipeKeeps(ps[k - 1], PipeStep(u, ts[k - 1], ms[k - 1]), ps[k]);
      if TailEvent(ms[k - 1]).Some? {
        Tail.StepKeepsExact(ts[k - 1], TailEvent(ms[k - 1]).value);
      }
    }
  }

  lemma PipeKeeps(p: Pipe.Pipeline, s: Option<Pipe.Step>, p': Pipe.Pipeline)
    requires Pipe.Inv(p) && (match s case None => p' == p case Some(step) => Pipe.StepOk(p, step, p'))
    requires forall sr :: sr in p.committed ==> Spool.CursorFits(sr.1.cursor)
    ensures Pipe.Inv(p') && forall sr :: sr in p'.committed ==> Spool.CursorFits(sr.1.cursor)
  {
    if s.Some? {
      Pipe.StepKeepsInv(p, s.value);
    }
  }

  // The first lines promised for all files, up to the one whose cursor is saved, are committed records; so the
  // id of the i-th one's event is safe, and so is the event if committed records with equal cursors make equal
  // events.
  ghost predicate SafeUpToCursor(u: Setup, p: Pipe.Pipeline, t: Tail.Tail, i: nat) {
    var promised := Tail.AllLines(t.files, |t.files|);
    && i < t.committed <= |promised|
    && (u.name, RecordOf(u, promised[i])) in p.committed
    && (u.name in p.spool.cursors ==> p.spool.cursors[u.name] == u.write(promised[t.committed - 1].cursor))
    && (RecordOf(u, promised[i]).body.Some? ==> Pipe.Safe(p, Spool.IdOf(u.write(promised[i].cursor))))
    && (RecordOf(u, promised[i]).body.Some? && Loss.UnambiguousSoFar(p) ==>
          Loss.EventSafe(p, RecordOf(u, promised[i])))
  }

  // In every joint run without a losing step of the tailer the committed lines are the first promised ones.
  lemma LinesUpToTheCursorAreSafe(
    u: Setup, ps: seq<Pipe.Pipeline>, ts: seq<Tail.Tail>, ms: seq<Move>, maxEvents: nat, configured: nat, k: nat,
    i: nat)
    requires Run(u, ps, ts, ms, maxEvents, configured) && k < |ps| && NoLosingStep(ts, ms, k)
    requires i < ts[k].committed
    ensures SafeUpToCursor(u, ps[k], ts[k], i)
  {
    JointInvariant(u, ps, ts, ms, maxEvents, configured, k);
    CommittedLinesAreSafe(u, ps[k], ts[k], i);
  }

  lemma CommittedLinesAreSafe(u: Setup, p: Pipe.Pipeline, t: Tail.Tail, i: nat)
    requires Pipe.Inv(p) && Tail.Exact(t) && Linked(u, p, t) && SameCursor(u, p, t) && i < t.committed
    requires forall sr :: sr in p.committed ==> Spool.CursorFits(sr.1.cursor)
    ensures SafeUpToCursor(u, p, t, i)
  {
    Tail.EmittedIsPromised(t);
    if Loss.UnambiguousSoFar(p) {
      Loss.EventsAreSafe(p);
    }
  }
}
