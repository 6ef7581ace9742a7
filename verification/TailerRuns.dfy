/** The tailer against files that grow, are renamed away and replaced any number of times, and a reader
    that stops and resumes from the last committed cursor. Each event is one bounded read, one rotation
    check, one change of the files, one commit or one restart, in any order. A file that was renamed away
    is finished: it does not grow any more. */
module TailerRuns {
  import opened Prelude
  import opened FollowedFile

  // While discarding, `start` is where the overlong line begins.
  datatype Mode = AtLine | Discarding(start: nat)

  // Reading until nothing is left, about to check for rotation, or draining a file that was renamed.
  datatype Phase = Reading | Polled | Draining

  // files[i] is the i-th file ever found at the path, with identity i; the last one is there now, and
  // `cur` is the one the open handle reads. The first `committed` lines emitted are committed, and `saved`
  // is the cursor of the last one unless it was given up.
  datatype Tail = Tail(files: seq<seq<Byte>>, cur: nat, pos: nat, mode: Mode, phase: Phase, emitted: seq<RawLine>,
                       committed: nat, saved: Option<Cursor>)

  datatype Event = Grow(bytes: seq<Byte>) | Rename | Read | Check | Commit | Restart

  const FRESH := Tail([[]], 0, 0, AtLine, Reading, [], 0, None)

  predicate Shape(t: Tail) {
    && t.cur < |t.files| && (t.phase.Draining? ==> t.cur < |t.files| - 1)
    && t.pos <= |t.files[t.cur]| && t.committed <= |t.emitted|
  }

  function Path(t: Tail): nat
    requires Shape(t)
  {
    |t.files| - 1
  }

  predicate Enabled(t: Tail, e: Event) {
    match e
    case Read => !t.phase.Polled?
    case Check => t.phase.Polled?
    case Commit => t.committed < |t.emitted|
    case _ => true
  }

  function Chunk(t: Tail): seq<Byte>
    requires Shape(t)
  {
    var c := t.files[t.cur]; c[t.pos..ChunkEnd(c, t.pos, MAX_LINE_BYTES)]
  }

  // One bounded read finds nothing more to emit for now.
  predicate Finishes(t: Tail)
    requires Shape(t)
  {
    var chunk := Chunk(t);
    chunk == [] || (t.mode.AtLine? && !EndsLine(chunk) && |chunk| < MAX_LINE_BYTES)
  }

  // Nothing more to read: check for rotation next, or open what is at the path after the drain.
  function Finished(t: Tail): Tail
    requires Shape(t)
  {
    if t.phase.Draining?
    then t.(cur := Path(t), pos := 0, mode := AtLine, phase := Reading)
    else t.(mode := AtLine, phase := Polled)
  }

  function ReadOnce(t: Tail): Tail
    requires Shape(t)
  {
    var chunk := Chunk(t);
    var e := t.pos + |chunk|;
    if Finishes(t) then Finished(t)
    else if EndsLine(chunk) then
      t.(pos := e, mode := AtLine,
         emitted := if t.mode.AtLine? then t.emitted + Emitted(chunk, t.cur, e) else t.emitted)
    else t.(pos := e, mode := if t.mode.AtLine? then Discarding(t.pos) else t.mode)
  }

  // The saved cursor names the file at the path. If it names another one it is given up, and like
  // without a cursor the file at the path is read from its start.
  predicate Resumes(t: Tail)
    requires Shape(t)
  {
    t.saved.Some? && t.saved.value.identity == Path(t)
  }

  function Restarted(t: Tail): Tail
    requires Shape(t)
  {
    t.(cur := Path(t), mode := AtLine, phase := Reading, emitted := t.emitted[..t.committed],
       pos := if Resumes(t) && t.saved.value.offset <= |t.files[Path(t)]| then t.saved.value.offset else 0,
       saved := if Resumes(t) then t.saved else None)
  }

  function Apply(t: Tail, e: Event): Tail
    requires Shape(t) && Enabled(t, e)
  {
    match e
    case Grow(bytes) => t.(files := t.files[Path(t) := t.files[Path(t)] + bytes])
    case Rename => t.(files := t.files + [[]])
    case Read => ReadOnce(t)
    case Check => t.(phase := if Path(t) != t.cur then Draining else Reading)
    case Commit => t.(committed := t.committed + 1, saved := Some(t.emitted[t.committed].cursor))
    case Restart => Restarted(t)
  }

  ghost predicate StepOk(t: Tail, e: Event, t': Tail) {
    Shape(t) && Enabled(t, e) && t' == Apply(t, e)
  }

  ghost predicate RunFrom(start: Tail, ts: seq<Tail>, es: seq<Event>) {
    && |ts| == |es| + 1 && ts[0] == start
    && forall k {:trigger es[k]} :: 0 <= k < |es| ==> StepOk(ts[k], es[k], ts[k + 1])
  }

  ghost predicate Run(ts: seq<Tail>, es: seq<Event>) {
    RunFrom(FRESH, ts, es)
  }

  // ---------------------------------------------------------------- what is promised

  // The lines promised for the first n files, in order.
  function AllLines(files: seq<seq<Byte>>, n: nat): seq<RawLine>
    requires n <= |files|
  {
    if n == 0 then [] else AllLines(files, n - 1) + Expected(files[n - 1], n - 1, 0)
  }

  lemma {:induction false} AllLinesFrame(f: seq<seq<Byte>>, g: seq<seq<Byte>>, n: nat)
    requires n <= |f| && n <= |g| && f[..n] == g[..n]
    ensures AllLines(f, n) == AllLines(g, n)
  {
    if n > 0 {
      assert f[..n - 1] == f[..n][..n - 1] && g[..n - 1] == g[..n][..n - 1];
      AllLinesFrame(f, g, n - 1);
      assert f[n - 1] == f[..n][n - 1] && g[n - 1] == g[..n][n - 1];
    }
  }

  lemma {:induction false} AllLinesPrefix(files: seq<seq<Byte>>, m: nat, n: nat)
    requires m <= n <= |files|
    ensures AllLines(files, m) <= AllLines(files, n)
    decreases n
  {
    if m < n {
      AllLinesPrefix(files, m, n - 1);
    }
  }

  // ---------------------------------------------------------------- the steps that lose lines

  // The file at the path ends inside an overlong line that is being discarded.
  predicate LosesTrack(t: Tail, e: Event)
    requires Shape(t)
  {
    e.Read? && t.mode.Discarding? && t.pos == |t.files[t.cur]| && t.cur == Path(t)
  }

  // The drain is over and files with lines came and went at the path since the drained one.
  predicate SkipsFiles(t: Tail, e: Event)
    requires Shape(t)
  {
    e.Read? && t.phase.Draining? && Finishes(t) && |AllLines(t.files, Path(t))| > |AllLines(t.files, t.cur + 1)|
  }

  // A restart finds lines of files before the one at the path that were not committed.
  predicate Forgets(t: Tail, e: Event)
    requires Shape(t)
  {
    e.Restart? && t.committed < |AllLines(t.files, Path(t))|
  }

  predicate Loses(t: Tail, e: Event)
    requires Shape(t)
  {
    LosesTrack(t, e) || SkipsFiles(t, e) || Forgets(t, e)
  }

  // ---------------------------------------------------------------- exactness

  function LineStart(t: Tail): nat {
    if t.mode.AtLine? then t.pos else t.mode.start
  }

  // Everything before the current line was treated exactly as promised.
  predicate Tracking(t: Tail)
    requires Shape(t)
  {
    var c := t.files[t.cur];
    && Boundary(c, LineStart(t))
    && (t.mode.Discarding? ==>
          t.mode.start + MAX_LINE_BYTES <= t.pos && forall i :: t.mode.start <= i < t.pos ==> c[i] != NEWLINE)
    && t.emitted == AllLines(t.files, t.cur) + Expected(c[..LineStart(t)], t.cur, 0)
  }

  // A finished file was read to its end, although that lies inside an overlong line.
  predicate DrainedOff(t: Tail)
    requires Shape(t)
  {
    t.cur < Path(t) && t.mode.AtLine? && t.pos == |t.files[t.cur]| && t.emitted == AllLines(t.files, t.cur + 1)
  }

  // The saved cursor is that of the last committed line, unless no line of the current file is committed.
  predicate SavedOk(t: Tail)
    requires Shape(t)
  {
    && (t.saved.Some? ==> t.committed > 0 && t.saved.value == t.emitted[t.committed - 1].cursor)
    && (t.committed > |AllLines(t.files, t.cur)| ==> t.saved.Some?)
  }

  predicate Exact(t: Tail) {
    Shape(t) && SavedOk(t) && (Tracking(t) || DrainedOff(t))
  }

  // What is emitted is always a beginning of what is promised.
  lemma EmittedIsPromised(t: Tail)
    requires Exact(t)
    ensures t.emitted <= AllLines(t.files, t.cur + 1) <= AllLines(t.files, |t.files|)
  {
    AllLinesPrefix(t.files, t.cur + 1, |t.files|);
    if Tracking(t) {
      ExpectedSplit(t.files[t.cur], t.cur, 0, LineStart(t));
    }
  }

  lemma GrowKeepsExact(t: Tail, bytes: seq<Byte>)
    requires Exact(t)
    ensures Exact(Apply(t, Grow(bytes)))
  {
    var t' := Apply(t, Grow(bytes));
    AllLinesFrame(t.files, t'.files, t.cur);
    if Tracking(t) {
      GrowKeepsTracking(t, t');
    } else {
      AllLinesFrame(t.files, t'.files, t.cur + 1);
    }
  }

  lemma GrowKeepsTracking(t: Tail, t': Tail)
    requires Shape(t) && Tracking(t) && |t'.files| == |t.files| && t' == t.(files := t'.files)
    requires t.files[t.cur] <= t'.files[t.cur] && AllLines(t'.files, t.cur) == AllLines(t.files, t.cur)
    ensures Tracking(t')
  {
    assert t'.files[t.cur][..LineStart(t)] == t.files[t.cur][..LineStart(t)];
  }

  lemma RenameKeepsExact(t: Tail)
    requires Exact(t)
    ensures Exact(Apply(t, Rename))
  {
    var t' := Apply(t, Rename);
    AllLinesFrame(t.files, t'.files, t.cur);
    AllLinesFrame(t.files, t'.files, t.cur + 1);
  }

  // The first k lines of a file end at a boundary and are the lines expected up to there.
  lemma ResumePoint(before: seq<RawLine>, c: seq<Byte>, identity: Identity, end: nat, k: nat)
    requires Boundary(c, end) && 1 <= k <= |Expected(c[..end], identity, 0)|
    ensures var lines := Expected(c[..end], identity, 0); var off := lines[k - 1].cursor.offset;
            && Boundary(c, off) && off <= end && (before + lines)[|before| + k - 1] == lines[k - 1]
            && (before + lines)[..|before| + k] == before + Expected(c[..off], identity, 0)
  {
    var lines := Expected(c[..end], identity, 0);
    ExpectedPrefix(c[..end], identity, 0, k);
    assert c[..end][..lines[k - 1].cursor.offset] == c[..lines[k - 1].cursor.offset];
  }

  lemma LineAt(files: seq<seq<Byte>>, n: nat, i: nat)
    requires n <= |files| && i < |AllLines(files, n)|
    ensures n > 0
    ensures var m := |AllLines(files, n - 1)|;
            if i < m then AllLines(files, n)[i] == AllLines(files, n - 1)[i]
            else
              && i - m < |Expected(files[n - 1], n - 1, 0)|
              && AllLines(files, n)[i] == Expected(files[n - 1], n - 1, 0)[i - m]
  {
  }

  // Lines of the first n files have an identity below n.
  lemma {:induction false} IdentityBelow(files: seq<seq<Byte>>, n: nat, i: nat)
    requires n <= |files| && i < |AllLines(files, n)|
    ensures AllLines(files, n)[i].cursor.identity < n
  {
    if i < |AllLines(files, n - 1)| {
      IdentityBelow(files, n - 1, i);
    } else {
      ExpectedIdentity(files[n - 1], n - 1, 0, i - |AllLines(files, n - 1)|);
    }
  }

  lemma ExpectedIdentity(c: seq<Byte>, identity: Identity, pos: nat, j: nat)
    requires pos <= |c| && j < |Expected(c, identity, pos)|
    ensures Expected(c, identity, pos)[j].cursor.identity == identity
  {
    ExpectedPrefix(c, identity, pos, j + 1);
  }

  // At the start of a file, with all lines of the earlier files emitted.
  lemma StartIsExact(t: Tail)
    requires Shape(t) && SavedOk(t) && t.mode.AtLine? && t.pos == 0 && t.emitted == AllLines(t.files, t.cur)
    ensures Exact(t)
  {
    assert t.files[t.cur][..0] == [];
    assert Expected([], t.cur, 0) == [];
    assert t.emitted + [] == t.emitted;
  }

  lemma CommittedIsPromised(t: Tail, n: nat)
    requires Exact(t) && n <= |t.files| && t.committed <= |AllLines(t.files, n)|
    ensures t.emitted[..t.committed] == AllLines(t.files, n)[..t.committed]
  {
    EmittedIsPromised(t);
    AllLinesPrefix(t.files, n, |t.files|);
  }

  // If all lines before the file at the path are committed, and not one of its own, it is read from its
  // start, whether or not a cursor is given up.
  lemma RestartAtStart(t: Tail)
    requires Exact(t) && t.committed == |AllLines(t.files, Path(t))|
    ensures Exact(Restarted(t))
  {
    assert t.emitted[..t.committed] == AllLines(t.files, Path(t)) by { CommittedIsPromised(t, Path(t)); }
    OldCursor(t);
    StartIsExact(Restarted(t));
  }

  lemma OldCursor(t: Tail)
    requires Shape(t) && SavedOk(t) && t.emitted[..t.committed] == AllLines(t.files, Path(t))
    ensures !Resumes(t)
  {
    if t.saved.Some? {
      assert t.saved.value == AllLines(t.files, Path(t))[t.committed - 1].cursor;
      IdentityBelow(t.files, Path(t), t.committed - 1);
    }
  }

  // If lines of the file at the path are committed, it is read on after the last one.
  lemma RestartInside(t: Tail)
    requires Exact(t) && t.committed > |AllLines(t.files, Path(t))|
    ensures t.cur == Path(t) && Exact(Restarted(t))
  {
    EmittedIsPromised(t);
    if t.cur < Path(t) {
      AllLinesPrefix(t.files, t.cur + 1, Path(t));
    }
    ResumeInside(t, AllLines(t.files, t.cur), t.files[t.cur], t.committed - |AllLines(t.files, t.cur)|);
  }

  lemma ResumeInside(t: Tail, before: seq<RawLine>, c: seq<Byte>, k: nat)
    requires Shape(t) && SavedOk(t) && Tracking(t) && t.cur == Path(t) && k > 0
    requires before == AllLines(t.files, t.cur) && c == t.files[t.cur] && t.committed == |before| + k
    ensures Exact(Restarted(t))
  {
    ResumePoint(before, c, t.cur, LineStart(t), k);
    ExpectedIdentity(c[..LineStart(t)], t.cur, 0, k - 1);
  }

  // A read that finds nothing more proves that everything has been emitted.
  lemma CaughtUp(t: Tail)
    requires Exact(t) && Finishes(t) && !LosesTrack(t, Read)
    ensures t.emitted == AllLines(t.files, t.cur + 1)
    ensures t.mode.AtLine? || (t.cur < Path(t) && t.pos == |t.files[t.cur]|)
  {
    var c := t.files[t.cur];
    if Tracking(t) {
      ChunkFacts(c, t.pos);
      ExpectedSplit(c, t.cur, 0, LineStart(t));
      NothingComplete(t);
    }
  }

  lemma NothingComplete(t: Tail)
    requires Shape(t) && Tracking(t) && Finishes(t)
    ensures Expected(t.files[t.cur], t.cur, LineStart(t)) == []
  {
    var c := t.files[t.cur];
    ChunkFacts(c, t.pos);
    if t.mode.Discarding? {
      LineEndInside(c, t.mode.start, t.pos);
    }
  }

  lemma DiscardEnds(c: seq<Byte>, identity: Identity, start: nat, pos: nat, e: nat)
    requires Boundary(c, start) && start + MAX_LINE_BYTES <= pos < e <= |c| && c[e - 1] == NEWLINE
    requires forall i :: start <= i < e - 1 ==> c[i] != NEWLINE
    ensures Expected(c[..e], identity, 0) == Expected(c[..start], identity, 0)
  {
    LineEndUnique(c, start, e);
    ExpectedStep(c, identity, start);
  }

  lemma FinishKeepsExact(t: Tail)
    requires Exact(t) && Enabled(t, Read) && !Loses(t, Read) && Finishes(t)
    ensures Exact(ReadOnce(t))
  {
    CaughtUp(t);
    if t.phase.Draining? {
      DrainEnds(t);
    } else {
      PollBegins(t);
    }
  }

  lemma PollBegins(t: Tail)
    requires Exact(t) && t.emitted == AllLines(t.files, t.cur + 1)
    requires t.mode.AtLine? || (t.cur < Path(t) && t.pos == |t.files[t.cur]|)
    ensures Exact(t.(mode := AtLine, phase := Polled))
  {
  }

  lemma DrainEnds(t: Tail)
    requires Shape(t) && SavedOk(t) && t.phase.Draining? && t.emitted == AllLines(t.files, t.cur + 1)
    requires |AllLines(t.files, Path(t))| <= |AllLines(t.files, t.cur + 1)|
    ensures Exact(Finished(t))
  {
    AllLinesPrefix(t.files, t.cur + 1, Path(t));
    StartIsExact(Finished(t));
  }

  // Reading the complete line at the current position.
  lemma LineRead(t: Tail)
    requires Shape(t) && t.mode.AtLine? && !Finishes(t) && EndsLine(Chunk(t))
    ensures var c := t.files[t.cur]; var e := LineEnd(c, t.pos);
            Complete(c, t.pos) && ReadOnce(t) == t.(pos := e, emitted := t.emitted + Emitted(c[t.pos..e], t.cur, e))
  {
    ChunkFacts(t.files[t.cur], t.pos);
  }

  lemma LineKeepsExact(t: Tail)
    requires Shape(t) && SavedOk(t) && Tracking(t) && t.mode.AtLine? && Complete(t.files[t.cur], t.pos)
    ensures var c := t.files[t.cur]; var e := LineEnd(c, t.pos);
            Exact(t.(pos := e, emitted := t.emitted + Emitted(c[t.pos..e], t.cur, e)))
  {
    var c := t.files[t.cur];
    var e := LineEnd(c, t.pos);
    ExpectedStep(c, t.cur, t.pos);
    Associates(AllLines(t.files, t.cur), Expected(c[..t.pos], t.cur, 0), Emitted(c[t.pos..e], t.cur, e));
  }

  // Reading the last piece of an overlong line.
  lemma LastPieceRead(t: Tail)
    requires Shape(t) && t.mode.Discarding? && !Finishes(t) && EndsLine(Chunk(t))
    ensures var c := t.files[t.cur]; var e := t.pos + |Chunk(t)|;
            && t.pos < e <= |c| && c[e - 1] == NEWLINE && (forall i :: t.pos <= i < e - 1 ==> c[i] != NEWLINE)
            && ReadOnce(t) == t.(pos := e, mode := AtLine)
  {
    var c := t.files[t.cur];
    ChunkFacts(c, t.pos);
    assert LineEnd(c, t.pos) == t.pos + |Chunk(t)|;
  }

  lemma LastPieceKeepsExact(t: Tail, e: nat)
    requires Shape(t) && SavedOk(t) && Tracking(t) && t.mode.Discarding?
    requires t.pos < e <= |t.files[t.cur]| && t.files[t.cur][e - 1] == NEWLINE
    requires forall i :: t.pos <= i < e - 1 ==> t.files[t.cur][i] != NEWLINE
    ensures Exact(t.(pos := e, mode := AtLine))
  {
    DiscardEnds(t.files[t.cur], t.cur, t.mode.start, t.pos, e);
  }

  // Reading a piece without a newline that is as long as a read may be.
  lemma PieceRead(t: Tail)
    requires Shape(t) && !Finishes(t) && !EndsLine(Chunk(t))
    ensures var c := t.files[t.cur]; var e := t.pos + |Chunk(t)|;
            && e <= |c| && (t.mode.AtLine? ==> e == t.pos + MAX_LINE_BYTES)
            && (forall i :: t.pos <= i < e ==> c[i] != NEWLINE)
            && ReadOnce(t) == t.(pos := e, mode := Discarding(LineStart(t)))
  {
    var c, e := t.files[t.cur], t.pos + |Chunk(t)|;
    assert Chunk(t)[|Chunk(t)| - 1] == c[e - 1];
  }

  lemma PieceKeepsExact(t: Tail, e: nat)
    requires Shape(t) && SavedOk(t) && Tracking(t)
    requires t.pos <= e <= |t.files[t.cur]| && (t.mode.AtLine? ==> e == t.pos + MAX_LINE_BYTES)
    requires forall i :: t.pos <= i < e ==> t.files[t.cur][i] != NEWLINE
    ensures Exact(t.(pos := e, mode := Discarding(LineStart(t))))
  {
  }

  lemma ReadKeepsExact(t: Tail)
    requires Exact(t) && Enabled(t, Read) && !Loses(t, Read)
    ensures Exact(ReadOnce(t))
  {
    if Finishes(t) {
      FinishKeepsExact(t);
    } else if EndsLine(Chunk(t)) {
      if t.mode.AtLine? {
        LineRead(t);
        LineKeepsExact(t);
      } else {
        LastPieceRead(t);
        LastPieceKeepsExact(t, ReadOnce(t).pos);
      }
    } else {
      PieceRead(t);
      PieceKeepsExact(t, ReadOnce(t).pos);
    }
  }

  lemma StepKeepsExact(t: Tail, e: Event)
    requires Exact(t) && Enabled(t, e) && !Loses(t, e)
    ensures Exact(Apply(t, e))
  {
    match e
    case Grow(bytes) => GrowKeepsExact(t, bytes);
    case Rename => RenameKeepsExact(t);
    case Read => ReadKeepsExact(t);
    case Restart => if t.committed == |AllLines(t.files, Path(t))| { RestartAtStart(t); } else { RestartInside(t); }
    case Check =>
    case Commit =>
  }

  // In every run in which no step loses lines, through any growth, restarts and rotations: what was
  // emitted is exactly the promised lines of all earlier files and of the current file up to the
  // current line, in order and with their cursors; and whenever a read finds nothing more, it is
  // everything the current file holds.
  lemma {:induction false} TailerExactness(ts: seq<Tail>, es: seq<Event>, k: nat)
    requires Run(ts, es) && k < |ts|
    requires forall i :: 0 <= i < k ==> Shape(ts[i]) && !Loses(ts[i], es[i])
    ensures Exact(ts[k]) && ts[k].emitted <= AllLines(ts[k].files, |ts[k].files|)
    ensures k < |es| && es[k].Read? && Finishes(ts[k]) && !LosesTrack(ts[k], es[k])
            ==> ts[k].emitted == AllLines(ts[k].files, ts[k].cur + 1)
  {
    if k > 0 {
      TailerExactness(ts, es, k - 1);
      assert StepOk(ts[k - 1], es[k - 1], ts[k]);
      StepKeepsExact(ts[k - 1], es[k - 1]);
    }
    EmittedIsPromised(ts[k]);
    if k < |es| && es[k].Read? && Finishes(ts[k]) && !LosesTrack(ts[k], es[k]) {
      CaughtUp(ts[k]);
    }
  }

  // ---------------------------------------------------------------- when no step loses track

  // Every line, newline included, is within the cap, and so is whatever the last one becomes.
  ghost predicate ShortLines(c: seq<Byte>) {
    forall p :: Boundary(c, p) ==>
      LineEnd(c, p) - p <= MAX_LINE_BYTES && (!Complete(c, p) ==> LineEnd(c, p) - p < MAX_LINE_BYTES)
  }

  // With short lines the tailer never discards, so it is exact in every run that skips no file and
  // forgets no line.
  lemma {:induction false} ShortLinesNeverLoseTrack(ts: seq<Tail>, es: seq<Event>, k: nat)
    requires Run(ts, es) && k < |ts|
    requires forall i :: 0 <= i < |ts| ==> Shape(ts[i]) && ShortLines(ts[i].files[ts[i].cur])
    requires forall i :: 0 <= i < k ==> !SkipsFiles(ts[i], es[i]) && !Forgets(ts[i], es[i])
    ensures ts[k].mode.AtLine? && Exact(ts[k])
  {
    if k > 0 {
      var t, e := ts[k - 1], es[k - 1];
      ShortLinesNeverLoseTrack(ts, es, k - 1);
      assert StepOk(t, e, ts[k]);
      StepKeepsExact(t, e);
      if e.Read? {
        var c := t.files[t.cur];
        assert ShortLines(c);
        ChunkFacts(c, t.pos);
      }
    }
  }

  // ---------------------------------------------------------------- and every losing step really loses

  // The line belongs to a file before the n-th, and the tailer has passed it without emitting it.
  predicate Passed(t: Tail, n: nat, l: RawLine) {
    Shape(t) && n <= t.cur && l.cursor.identity < n && l !in t.emitted
  }

  // In every continuation the line is never emitted: the tailer only ever moves to later files.
  lemma {:induction false} PassedForever(start: Tail, ts: seq<Tail>, es: seq<Event>, k: nat, n: nat, l: RawLine)
    requires RunFrom(start, ts, es) && k < |ts| && Passed(start, n, l)
    ensures Passed(ts[k], n, l)
  {
    if k > 0 {
      PassedForever(start, ts, es, k - 1, n, l);
      assert StepOk(ts[k - 1], es[k - 1], ts[k]);
      PassedStep(ts[k - 1], es[k - 1], n, l);
    }
  }

  lemma PassedStep(t: Tail, e: Event, n: nat, l: RawLine)
    requires Passed(t, n, l) && Enabled(t, e)
    ensures Passed(Apply(t, e), n, l)
  {
  }

  // A promised line of the first n files that is not among the first i of all.
  lemma LineAfter(files: seq<seq<Byte>>, n: nat, i: nat) returns (l: RawLine)
    requires n <= |files| && i < |AllLines(files, n)|
    ensures l in AllLines(files, n) && l.cursor.identity < n
    ensures i <= |AllLines(files, |files|)| && l !in AllLines(files, |files|)[..i]
  {
    l := AllLines(files, n)[i];
    IdentityBelow(files, n, i);
    AllLinesPrefix(files, n, |files|);
    forall j | 0 <= j < i
      ensures AllLines(files, |files|)[j] != l
    {
      LinesDiffer(files, |files|, j, i);
    }
  }

  // Skipping files loses a promised line for good.
  lemma SkippingLosesALine(t: Tail) returns (l: RawLine)
    requires Exact(t) && Enabled(t, Read) && SkipsFiles(t, Read)
    ensures l in AllLines(t.files, Path(t)) && Passed(Apply(t, Read), Path(t), l)
  {
    var i := |AllLines(t.files, t.cur + 1)|;
    l := LineAfter(t.files, Path(t), i);
    EmittedIsPromised(t);
    assert forall j :: 0 <= j < |t.emitted| ==> t.emitted[j] == AllLines(t.files, |t.files|)[..i][j];
  }

  // So does a restart that forgets lines.
  lemma ForgettingLosesALine(t: Tail) returns (l: RawLine)
    requires Exact(t) && Forgets(t, Restart)
    ensures l in AllLines(t.files, Path(t)) && Passed(Apply(t, Restart), Path(t), l)
  {
    l := LineAfter(t.files, Path(t), t.committed);
    AllLinesPrefix(t.files, Path(t), |t.files|);
    CommittedIsPromised(t, |t.files|);
  }

  // No two promised lines are the same: their cursors differ.
  lemma {:induction false} LinesDiffer(files: seq<seq<Byte>>, n: nat, i: nat, j: nat)
    requires n <= |files| && i < j < |AllLines(files, n)|
    ensures AllLines(files, n)[i] != AllLines(files, n)[j]
  {
    LineAt(files, n, i);
    LineAt(files, n, j);
    if j < |AllLines(files, n - 1)| {
      LinesDiffer(files, n - 1, i, j);
    } else {
      LastFileDiffers(files, n, i, j);
    }
  }

  lemma LastFileDiffers(files: seq<seq<Byte>>, n: nat, i: nat, j: nat)
    requires 0 < n <= |files| && i < j < |AllLines(files, n)| && |AllLines(files, n - 1)| <= j
    ensures AllLines(files, n)[i].cursor != AllLines(files, n)[j].cursor
  {
    var m := |AllLines(files, n - 1)|;
    LineAt(files, n, i);
    LineAt(files, n, j);
    ExpectedIdentity(files[n - 1], n - 1, 0, j - m);
    if i < m {
      IdentityBelow(files, n - 1, i);
    } else {
      OffsetsGrow(files[n - 1], n - 1, 0, i - m, j - m);
    }
  }

  lemma {:induction false} OffsetsGrow(c: seq<Byte>, identity: Identity, pos: nat, i: nat, j: nat)
    requires pos <= |c| && i < j < |Expected(c, identity, pos)|
    ensures Expected(c, identity, pos)[i].cursor.offset < Expected(c, identity, pos)[j].cursor.offset
    decreases |c| - pos
  {
    var e := LineEnd(c, pos);
    var first := Emitted(c[pos..e], identity, e);
    if i < |first| {
      ExpectedPrefix(c, identity, e, j - |first| + 1);
    } else {
      OffsetsGrow(c, identity, e, i - |first|, j - |first|);
    }
  }

  // And after a read that loses track, once the rest of the overlong line arrives, its tail is emitted as
  // if it were a line of its own: more is emitted than is promised.
  lemma LosingTrackEmitsAFragment(t: Tail)
    requires Exact(t) && Enabled(t, Read) && LosesTrack(t, Read)
    ensures var t1 := Apply(t, Read);
            var t2 := Apply(t1, Check);
            var t3 := Apply(t2, Grow([NEWLINE]));
            var t4 := Apply(t3, Read);
            && AllLines(t4.files, |t4.files|) == t.emitted
            && |t4.emitted| == |t.emitted| + 1
  {
    var c := t.files[t.cur];
    ChunkFacts(c, t.pos);
    assert Apply(t, Read) == t.(mode := AtLine, phase := Polled);
    var t3 := t.(files := t.files[t.cur := c + [NEWLINE]], mode := AtLine);
    assert Apply(Apply(Apply(t, Read), Check), Grow([NEWLINE])) == t3;
    FragmentRead(t3);
    OverlongLineIsSkipped(t, t3.files);
  }

  lemma FragmentRead(t: Tail)
    requires Shape(t) && t.mode.AtLine? && t.pos + 1 == |t.files[t.cur]| && t.files[t.cur][t.pos] == NEWLINE
    ensures |ReadOnce(t).emitted| == |t.emitted| + 1 && ReadOnce(t).files == t.files && ReadOnce(t).cur == t.cur
  {
    LineEndUnique(t.files[t.cur], t.pos, t.pos + 1);
    assert Chunk(t) == [NEWLINE];
    assert [NEWLINE][..0] == [];
    assert StripEnd([NEWLINE]) == [];
  }

  lemma OverlongLineIsSkipped(t: Tail, files: seq<seq<Byte>>)
    requires Shape(t) && Tracking(t) && t.mode.Discarding? && t.pos == |t.files[t.cur]|
    requires files == t.files[t.cur := t.files[t.cur] + [NEWLINE]]
    ensures AllLines(files, t.cur + 1) == t.emitted
  {
    var c, d := t.files[t.cur], files[t.cur];
    AllLinesFrame(t.files, files, t.cur);
    assert d[..|d|] == d && d[..t.mode.start] == c[..t.mode.start];
    DiscardEnds(d, t.cur, t.mode.start, |c|, |d|);
  }

  // ---------------------------------------------------------------- all three do happen

  lemma NextStep(ts: seq<Tail>, es: seq<Event>, e: Event) returns (ts': seq<Tail>, es': seq<Event>)
    requires Run(ts, es) && Shape(ts[|es|]) && Enabled(ts[|es|], e)
    ensures Run(ts', es') && es' == es + [e] && ts' == ts + [Apply(ts[|es|], e)]
  {
    ts', es' := ts + [Apply(ts[|es|], e)], es + [e];
    forall k | 0 <= k < |es'|
      ensures StepOk(ts'[k], es'[k], ts'[k + 1])
    {
      if k < |es| {
        assert StepOk(ts[k], es[k], ts[k + 1]);
      }
    }
  }

  // The writer is caught after exactly one cap's worth of a line.
  lemma LosingTrackIsReachable(c: seq<Byte>) returns (ts: seq<Tail>, es: seq<Event>)
    requires |c| == MAX_LINE_BYTES && forall i :: 0 <= i < |c| ==> c[i] != NEWLINE
    ensures Run(ts, es) && es == [Grow(c), Read] && Exact(ts[2]) && Enabled(ts[2], Read) && LosesTrack(ts[2], Read)
  {
    ts, es := [FRESH], [];
    ts, es := NextStep(ts, es, Grow(c));
    assert ts[1] == FRESH.(files := [c]) by { assert [] + c == c; }
    WholeChunk(c);
    ts, es := NextStep(ts, es, Read);
    TailerExactness(ts, es, 2);
  }

  lemma WholeChunk(c: seq<Byte>)
    requires |c| == MAX_LINE_BYTES && forall i :: 0 <= i < |c| ==> c[i] != NEWLINE
    ensures ChunkEnd(c, 0, MAX_LINE_BYTES) == |c| && c[0..|c|] == c && !EndsLine(c)
  {
  }

  // An empty file, one with a single line, and an empty one that are at the path in turn.
  lemma ThreeFiles() returns (ts: seq<Tail>, es: seq<Event>)
    ensures Run(ts, es) && es == [Rename, Grow([NEWLINE]), Rename]
    ensures ts[3] == FRESH.(files := [[], [NEWLINE], []])
    ensures forall i | 0 <= i < 3 :: Shape(ts[i]) && !Loses(ts[i], es[i])
  {
    ts, es := [FRESH], [];
    ts, es := NextStep(ts, es, Rename);
    ts, es := NextStep(ts, es, Grow([NEWLINE]));
    assert [] + [NEWLINE] == [NEWLINE];
    assert ts[2].files == [[], [NEWLINE]];
    ts, es := NextStep(ts, es, Rename);
  }

  // Two renames before the next check, with a line written in between.
  lemma SkippingIsReachable() returns (ts: seq<Tail>, es: seq<Event>)
    ensures Run(ts, es) && es == [Rename, Grow([NEWLINE]), Rename, Read, Check]
    ensures Exact(ts[5]) && Enabled(ts[5], Read) && SkipsFiles(ts[5], Read)
  {
    ts, es := ThreeFiles();
    ts, es := NextStep(ts, es, Read);
    assert ts[4] == ts[3].(phase := Polled);
    ts, es := NextStep(ts, es, Check);
    OneEmptyLine(ts[5].files);
    TailerExactness(ts, es, 5);
  }

  lemma OneEmptyLine(files: seq<seq<Byte>>)
    requires |files| >= 2 && files[0] == [] && files[1] == [NEWLINE]
    ensures |AllLines(files, 1)| == 0 && |AllLines(files, 2)| == 1
  {
    var c := files[1];
    LineEndUnique(c, 0, 1);
    assert c[0..1] == [NEWLINE] && [NEWLINE][..0] == [] && StripEnd([NEWLINE]) == [];
    assert Expected(c, 1, 1) == [];
    assert AllLines(files, 1) == AllLines(files, 0) + Expected(files[0], 0, 0);
    assert |Expected(c, 1, 0)| == 1;
  }

  // A restart after a rotation, before the lines of the renamed file are committed.
  lemma ForgettingIsReachable() returns (ts: seq<Tail>, es: seq<Event>)
    ensures Run(ts, es) && es == [Rename, Grow([NEWLINE]), Rename]
    ensures Exact(ts[3]) && Forgets(ts[3], Restart)
  {
    ts, es := ThreeFiles();
    OneEmptyLine(ts[3].files);
    TailerExactness(ts, es, 3);
  }
}
