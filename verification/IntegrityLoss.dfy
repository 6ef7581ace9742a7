/** A file that is changed, changed in its permissions and changed back yields two different changes with
    one cursor, and the agent loses the second one. */
module IntegrityLoss {
  import opened Prelude
  import opened Spool
  import opened AgentPipeline
  import opened EventLoss
  import Integrity = IntegrityBaseline

  function KindName(kind: Integrity.ChangeKind): string {
    match kind
    case Disappeared => "disappeared"
    case Appeared => "appeared"
    case Content => "content"
    case Metadata => "metadata"
    case Permissions => "permissions"
  }

  // What normalization makes of an integrity record: a baseline record makes no event.
  function RecordOf(r: Integrity.Record): Record {
    match r
    case Baseline(_) => Record(Integrity.CursorOf(r), None)
    case Change(_, key, kind, monitoring) =>
      Record(Integrity.CursorOf(r), Some(KindName(kind) + (if monitoring then ":content:" else ":metadata:") + key))
  }

  lemma KindsDiffer(a: Integrity.ChangeKind, b: Integrity.ChangeKind, x: string, y: string)
    requires a == Integrity.Permissions && b in {Integrity.Content, Integrity.Metadata}
    ensures KindName(a) + x != KindName(b) + y
  {
    assert (KindName(a) + x)[0] == 'p';
    assert (KindName(b) + y)[0] != 'p';
  }

  // The one record of a scan that finds the file in another state than the last scan did.
  function ChangeTo(key: string, a: Integrity.FileState, b: Integrity.FileState): Integrity.Record
    requires Watched(key, a)
  {
    Parts(key, a);
    Integrity.Change(Integrity.States([Integrity.Observed(key, b)]), key,
                     Integrity.Classify(Integrity.Observable(a), b), b.readable)
  }

  predicate Watched(key: string, f: Integrity.FileState) {
    Integrity.Snapshot([Integrity.Observed(key, f)])
  }

  lemma Parts(key: string, f: Integrity.FileState)
    requires Watched(key, f)
    ensures Integrity.ValidState(f) && |Integrity.Observable(f)| == Integrity.STATE_CHARS + Integrity.PERMISSION_CHARS
    ensures Integrity.Observable(f)[..Integrity.STATE_CHARS] == f.stateDigest
    ensures Integrity.Observable(f)[Integrity.STATE_CHARS..] == f.permissionDigest
  {
    assert Integrity.ValidState([Integrity.Observed(key, f)][0].state);
  }

  // The baseline that is committed when the file was last seen in this state.
  function BaselineOf(key: string, f: Integrity.FileState): Integrity.Entries {
    Integrity.States([Integrity.Observed(key, f)])
  }

  lemma ScanYields(key: string, a: Integrity.FileState, b: Integrity.FileState)
    requires Watched(key, a) && Watched(key, b) && Integrity.Observable(a) != Integrity.Observable(b)
    ensures Yields(key, a, b)
  {
    Integrity.OneChange(key, a, b);
    Integrity.FullScanSettles(BaselineOf(key, a), [Integrity.Observed(key, b)]);
  }

  // The content changes, then only the permissions, and then the permissions change back.
  predicate ChangedAndBack(key: string, a: Integrity.FileState, b: Integrity.FileState, c: Integrity.FileState) {
    && Watched(key, a) && Watched(key, b) && Watched(key, c) && b.present && c.present
    && a.stateDigest != Integrity.MISSING_STATE && b.stateDigest != Integrity.MISSING_STATE
    && a.stateDigest != b.stateDigest
    && c.stateDigest == b.stateDigest && c.permissionDigest != b.permissionDigest
  }

  // The first and the last of its three records have one cursor and make different events.
  lemma OneCursorTwoChanges(key: string, a: Integrity.FileState, b: Integrity.FileState, c: Integrity.FileState)
    requires ChangedAndBack(key, a, b, c)
    ensures Integrity.Observable(a) != Integrity.Observable(b) && Integrity.Observable(b) != Integrity.Observable(c)
    ensures var (first, last) := (RecordOf(ChangeTo(key, a, b)), RecordOf(ChangeTo(key, c, b)));
            SameId(first, last) && first.body != last.body
  {
    Parts(key, a);
    Parts(key, b);
    Parts(key, c);
    Integrity.PermissionsMeansOnlyPermissions(a, b);
    Integrity.PermissionsMeansOnlyPermissions(c, b);
    var tail := (if b.readable then ":content:" else ":metadata:") + key;
    KindsDiffer(ChangeTo(key, c, b).kind, ChangeTo(key, a, b).kind, tail, tail);
    BodyOf(ChangeTo(key, a, b));
    BodyOf(ChangeTo(key, c, b));
    CursorOfOneFits(key, b);
  }

  lemma BodyOf(r: Integrity.Record)
    requires r.Change?
    ensures RecordOf(r).body == Some(KindName(r.kind) + ((if r.monitoring then ":content:" else ":metadata:") + r.key))
  {
    var (x, y, z) := (KindName(r.kind), if r.monitoring then ":content:" else ":metadata:", r.key);
    assert x + y + z == x + (y + z);
  }

  lemma CursorOfOneFits(key: string, f: Integrity.FileState)
    requires Watched(key, f)
    ensures CursorFits(Integrity.Serialize(BaselineOf(key, f)))
  {
    Integrity.OneFile(key, f);
    var m := map[key := Integrity.Observable(f)];
    assert m.Keys == {key} && |m| == 1;
    Integrity.CursorLength(m);
  }

  // The three scans, each against what is committed after the one before, yield these three records.
  lemma ThreeScans(key: string, a: Integrity.FileState, b: Integrity.FileState, c: Integrity.FileState)
    requires ChangedAndBack(key, a, b, c)
    ensures Yields(key, a, b) && Yields(key, b, c) && Yields(key, c, b)
  {
    OneCursorTwoChanges(key, a, b, c);
    ScanYields(key, a, b);
    ScanYields(key, b, c);
    ScanYields(key, c, b);
  }

  // With the file committed in state a, a scan that finds it in state b yields the one record of the
  // change, and committing that commits the file in state b.
  predicate Yields(key: string, a: Integrity.FileState, b: Integrity.FileState)
    requires Watched(key, a) && Watched(key, b)
  {
    && Integrity.WellFormed(BaselineOf(key, a))
    && Integrity.Scanned(BaselineOf(key, a), [Integrity.Observed(key, b)], 1) == [ChangeTo(key, a, b)]
    && Integrity.Committed(BaselineOf(key, a), [ChangeTo(key, a, b)]) == BaselineOf(key, b)
  }

  // Collected in their order, the last of the three records is committed and its event is nowhere.
  lemma ChangeBackIsLost(
    key: string, a: Integrity.FileState, b: Integrity.FileState, c: Integrity.FileState, source: Source,
    maxEvents: nat, configured: nat)
    returns (ps: seq<Pipeline>, es: seq<Step>)
    requires ChangedAndBack(key, a, b, c) && 2 <= maxEvents && 1 <= configured <= 100
    ensures var last := RecordOf(ChangeTo(key, c, b));
            && Run(ps, es, maxEvents, configured) && |ps| == 4
            && es == [Collect(source, RecordOf(ChangeTo(key, a, b)), 0),
                      Collect(source, RecordOf(ChangeTo(key, b, c)), 0), Collect(source, last, 0)]
            && (source, last) in ps[3].committed && !EventSafe(ps[3], last)
  {
    OneCursorTwoChanges(key, a, b, c);
    CursorOfOneFits(key, c);
    CursorsDiffer(key, b, c);
    var x, y, z := RecordOf(ChangeTo(key, a, b)), RecordOf(ChangeTo(key, b, c)), RecordOf(ChangeTo(key, c, b));
    ps, es := ThirdEventIsLost(x, y, z, source, maxEvents, configured);
  }

  lemma CursorsDiffer(key: string, b: Integrity.FileState, c: Integrity.FileState)
    requires Watched(key, b) && Watched(key, c) && Integrity.Observable(b) != Integrity.Observable(c)
    ensures Integrity.Serialize(BaselineOf(key, b)) != Integrity.Serialize(BaselineOf(key, c))
  {
    Integrity.OneFile(key, b);
    Integrity.OneFile(key, c);
    Integrity.CursorsIdentifyEntries(Integrity.Baseline(BaselineOf(key, b)), Integrity.Baseline(BaselineOf(key, c)));
    assert BaselineOf(key, b)[key] != BaselineOf(key, c)[key];
  }

  lemma ThirdEventIsLost(x: Record, y: Record, z: Record, source: Source, maxEvents: nat, configured: nat)
    returns (ps: seq<Pipeline>, es: seq<Step>)
    requires SameId(x, z) && x.body != z.body && y.body.Some? && CursorFits(y.cursor) && y.cursor != x.cursor
    requires 2 <= maxEvents && 1 <= configured <= 100
    ensures Run(ps, es, maxEvents, configured) && |ps| == 4
    ensures es == [Collect(source, x, 0), Collect(source, y, 0), Collect(source, z, 0)]
    ensures (source, z) in ps[3].committed && !EventSafe(ps[3], z)
  {
    es := [Collect(source, x, 0), Collect(source, y, 0), Collect(source, z, 0)];
    var p0 := Init(maxEvents, configured);
    var p1 := Apply(p0, es[0]);
    var rows := [Row(EventOf(x), 0, 0, 0, Pending, None)];
    assert p1.spool.rows == rows && rows[0] in rows;
    var p2 := Apply(p1, es[1]);
    var both := rows + [Row(EventOf(y), 0, 0, 0, Pending, None)];
    assert p2.spool.rows == both && both[0] in both;
    assert Occupied(p2, IdOf(z.cursor), EventOf(z));
    OccupiedIdIsDropped(p2, source, z, 0);
    ps := [p0, p1, p2, Apply(p2, es[2])];
  }
}
