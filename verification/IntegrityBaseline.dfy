/** The file-integrity source keeps its whole memory in the cursor: a serialized map from path keys
    to observed states, parsed back on every scan. */
module IntegrityBaseline {
  import opened Prelude

  type Entries = map<string, string>

  const STATE_CHARS := 16
  const PERMISSION_CHARS := 8
  const KEY_CHARS := 8
  const MAX_WATCHED_PATHS := 64
  const MISSING_STATE := "0000000000000000"

  predicate IsAlnum(c: char) {
    '0' <= c <= '9' || 'a' <= c <= 'z' || 'A' <= c <= 'Z'
  }

  predicate Alnum(s: string) {
    s != [] && forall i :: 0 <= i < |s| ==> IsAlnum(s[i])
  }

  predicate WellFormed(m: Entries) {
    forall k :: k in m ==> Alnum(k) && Alnum(m[k]) && |m[k]| == STATE_CHARS + PERMISSION_CHARS
  }

  // ---------------------------------------------------------------- serializing

  predicate Leq(a: string, b: string) {
    a == [] || (b != [] && (a[0] < b[0] || (a[0] == b[0] && Leq(a[1..], b[1..]))))
  }

  lemma {:induction false} LeqTotal(a: string, b: string)
    ensures Leq(a, b) || Leq(b, a)
  {
    if a != [] && b != [] { LeqTotal(a[1..], b[1..]); }
  }

  lemma {:induction false} LeqAntisymmetric(a: string, b: string)
    requires Leq(a, b) && Leq(b, a)
    ensures a == b
  {
    if a != [] && b != [] {
      LeqAntisymmetric(a[1..], b[1..]);
      assert a == [a[0]] + a[1..] && b == [b[0]] + b[1..];
    }
  }

  lemma {:induction false} LeqTransitive(a: string, b: string, c: string)
    requires Leq(a, b) && Leq(b, c)
    ensures Leq(a, c)
  {
    if a != [] && b != [] && c != [] && a[0] == b[0] == c[0] { LeqTransitive(a[1..], b[1..], c[1..]); }
  }

  predicate IsLeast(k: string, s: set<string>) {
    k in s && forall x :: x in s ==> Leq(k, x)
  }

  lemma {:induction false} LeastExists(s: set<string>)
    requires s != {}
    ensures exists k :: IsLeast(k, s)
    decreases |s|
  {
    var x :| x in s;
    LeqTotal(x, x);
    if s == {x} {
      assert IsLeast(x, s);
    } else {
      var rest := s - {x};
      LeastExists(rest);
      var k :| IsLeast(k, rest);
      LeqTotal(k, x);
      if Leq(k, x) {
        assert IsLeast(k, s);
      } else {
        forall y | y in s ensures Leq(x, y) {
          if y != x { LeqTransitive(x, k, y); }
        }
        assert IsLeast(x, s);
      }
    }
  }

  // The keys in ascending order.
  function SortedKeys(s: set<string>): (keys: seq<string>)
    ensures |keys| == |s| && forall k :: k in keys <==> k in s
    ensures forall i, j :: 0 <= i < j < |keys| ==> Leq(keys[i], keys[j]) && keys[i] != keys[j]
    decreases |s|
  {
    if s == {} then []
    else
      LeastExists(s);
      assert forall a, b :: IsLeast(a, s) && IsLeast(b, s) ==> a == b by {
        forall a, b | IsLeast(a, s) && IsLeast(b, s) ensures a == b { LeqAntisymmetric(a, b); }
      }
      var k :| IsLeast(k, s);
      [k] + SortedKeys(s - {k})
  }

  function Item(name: string, value: string): string {
    name + ":" + value
  }

  function Items(keys: seq<string>, m: Entries): (items: seq<string>)
    requires forall k :: k in keys ==> k in m
    ensures |items| == |keys| && forall i :: 0 <= i < |keys| ==> items[i] == Item(keys[i], m[keys[i]])
  {
    seq(|keys|, i requires 0 <= i < |keys| => Item(keys[i], m[keys[i]]))
  }

  function Join(items: seq<string>): string {
    if items == [] then [] else if |items| == 1 then items[0] else items[0] + "," + Join(items[1..])
  }

  function Serialize(m: Entries): string {
    Join(Items(SortedKeys(m.Keys), m))
  }

  // ---------------------------------------------------------------- parsing

  function Find(s: string, c: char): (i: nat)
    ensures i <= |s| && (i < |s| ==> s[i] == c) && forall j :: 0 <= j < i ==> s[j] != c
  {
    if s == [] || s[0] == c then 0 else 1 + Find(s[1..], c)
  }

  function Split(s: string): seq<string> {
    var i := Find(s, ',');
    if i == |s| then [s] else [s[..i]] + Split(s[i + 1..])
  }

  function ParseItem(item: string): Option<(string, string)> {
    var i := Find(item, ':');
    if i == |item| then None
    else
      var name, value := item[..i], item[i + 1..];
      if !Alnum(name) || !Alnum(value) || |value| != STATE_CHARS + PERMISSION_CHARS then None
      else Some((name, value))
  }

  function ParseItems(items: seq<string>): Option<Entries> {
    if items == [] then Some(map[])
    else
      var n := |items| - 1;
      match (ParseItems(items[..n]), ParseItem(items[n]))
      case (Some(m), Some((name, value))) => Some(m[name := value])
      case _ => None
  }

  // Anything malformed counts as no baseline at all.
  function Parse(cursor: Option<string>): Entries {
    if cursor.None? || cursor.value == [] then map[]
    else match ParseItems(Split(cursor.value)) case Some(m) => m case None => map[]
  }

  lemma FindFirst(a: string, c: char, b: string)
    requires c !in a
    ensures Find(a + [c] + b, c) == |a|
  {
    var s := a + [c] + b;
    assert s[|a|] == c && forall j :: 0 <= j < |a| ==> s[j] == a[j] && a[j] in a;
  }

  lemma SplitFirst(item: string, rest: string)
    requires ',' !in item
    ensures Split(item) == [item] && Split(item + "," + rest) == [item] + Split(rest)
  {
    FindFirst(item, ',', rest);
    var s := item + "," + rest;
    assert s == item + [','] + rest;
    assert s[..|item|] == item && s[|item| + 1..] == rest;
  }

  lemma {:induction false} SplitJoin(items: seq<string>)
    requires items != [] && forall i :: 0 <= i < |items| ==> ',' !in items[i]
    ensures Split(Join(items)) == items
  {
    if |items| == 1 {
      SplitFirst(items[0], []);
      assert Join(items) == items[0];
    } else {
      var rest := Join(items[1..]);
      assert Join(items) == items[0] + "," + rest;
      SplitJoin(items[1..]);
      SplitFirst(items[0], rest);
      assert items == [items[0]] + items[1..];
    }
  }

  lemma ParseOneItem(name: string, value: string)
    requires Alnum(name) && Alnum(value) && |value| == STATE_CHARS + PERMISSION_CHARS
    ensures ParseItem(Item(name, value)) == Some((name, value)) && ',' !in Item(name, value)
  {
    FindFirst(name, ':', value);
    var item := Item(name, value);
    assert item == name + [':'] + value;
    assert item[..|name|] == name && item[|name| + 1..] == value;
  }

  lemma {:induction false} ParseAllItems(keys: seq<string>, m: Entries)
    requires WellFormed(m) && forall k :: k in keys ==> k in m
    ensures ParseItems(Items(keys, m)) == Some(map k | k in keys :: m[k])
  {
    if keys != [] {
      var n := |keys| - 1;
      var items := Items(keys, m);
      assert items[..n] == Items(keys[..n], m);
      ParseAllItems(keys[..n], m);
      ParseOneItem(keys[n], m[keys[n]]);
      assert keys[n] in keys && keys[n] in m && items[n] == Item(keys[n], m[keys[n]]);
      assert (map k | k in keys[..n] :: m[k])[keys[n] := m[keys[n]]] == map k | k in keys :: m[k];
    }
  }

  // The baseline survives the cursor unchanged.
  lemma RoundTrip(m: Entries)
    requires WellFormed(m)
    ensures Parse(Some(Serialize(m))) == m
  {
    if m != map[] {
      SerializedParses(Serialize(m), SortedKeys(m.Keys), m);
    } else {
      assert m.Keys == {};
    }
  }

  // Whatever order the items are written in.
  lemma SerializedParses(s: string, keys: seq<string>, m: Entries)
    requires WellFormed(m) && m != map[] && |keys| == |m.Keys| && forall k :: k in keys <==> k in m
    requires s == Join(Items(keys, m))
    ensures Parse(Some(s)) == m
  {
    assert |m.Keys| == |m|;
    CleanItems(keys, m);
    SplitJoin(Items(keys, m));
    assert |s| >= |Items(keys, m)[0]| > 0;
    ParseAllItems(keys, m);
    assert (map k | k in keys :: m[k]) == m;
  }

  lemma CleanItems(keys: seq<string>, m: Entries)
    requires WellFormed(m) && forall k :: k in keys ==> k in m
    ensures forall i :: 0 <= i < |keys| ==> ',' !in Items(keys, m)[i] && Items(keys, m)[i] != []
  {
    forall i | 0 <= i < |keys|
      ensures ',' !in Items(keys, m)[i] && Items(keys, m)[i] != []
    {
      assert keys[i] in m;
      ParseOneItem(keys[i], m[keys[i]]);
    }
  }

  lemma {:induction false} JoinLength(items: seq<string>, n: nat)
    requires items != [] && forall i :: 0 <= i < |items| ==> |items[i]| == n
    ensures |Join(items)| == (n + 1) * |items| - 1
  {
    if |items| > 1 {
      JoinLength(items[1..], n);
      assert (n + 1) * |items| == (n + 1) * |items[1..]| + (n + 1);
    }
  }

  // With eight-character keys the cursor always fits the spool's limit of 4096 characters.
  lemma CursorLength(m: Entries)
    requires WellFormed(m) && m != map[] && |m| <= MAX_WATCHED_PATHS && forall k :: k in m ==> |k| == KEY_CHARS
    ensures |Serialize(m)| == 34 * |m| - 1 && 1 <= |Serialize(m)| <= 4096
  {
    var keys := SortedKeys(m.Keys);
    var items := Items(keys, m);
    forall i | 0 <= i < |items| ensures |items[i]| == 33 {
      assert keys[i] in m;
    }
    assert |m.Keys| == |m|;
    assert items != [];
    JoinLength(items, 33);
  }

  // ---------------------------------------------------------------- scanning

  datatype FileState = FileState(stateDigest: string, permissionDigest: string, present: bool, readable: bool)

  function Observable(f: FileState): string {
    f.stateDigest + f.permissionDigest
  }

  predicate ValidState(f: FileState) {
    && Alnum(f.stateDigest) && |f.stateDigest| == STATE_CHARS
    && Alnum(f.permissionDigest) && |f.permissionDigest| == PERMISSION_CHARS
    && (!f.present ==> !f.readable && f.stateDigest == MISSING_STATE)
  }

  datatype ChangeKind = Disappeared | Appeared | Content | Metadata | Permissions

  function Classify(previous: string, f: FileState): ChangeKind
    requires |previous| >= STATE_CHARS
  {
    if !f.present then Disappeared
    else if previous[..STATE_CHARS] == MISSING_STATE then Appeared
    else if previous[..STATE_CHARS] != f.stateDigest then if f.readable then Content else Metadata
    else Permissions
  }

  // The label of a change, told from the two states: permissions only if nothing else differs, and content
  // only if the file could be read.
  lemma PermissionsMeansOnlyPermissions(previous: FileState, f: FileState)
    requires ValidState(previous) && ValidState(f) && Observable(previous) != Observable(f)
    ensures var kind := Classify(Observable(previous), f);
            var both := f.present && previous.stateDigest != "0000000000000000";
            && (kind == Disappeared <==> !f.present)
            && (kind == Appeared <==> f.present && previous.stateDigest == "0000000000000000")
            && (kind == Content <==> both && previous.stateDigest != f.stateDigest && f.readable)
            && (kind == Metadata <==> both && previous.stateDigest != f.stateDigest && !f.readable)
            && (kind == Permissions <==>
                  && both && previous.stateDigest == f.stateDigest
                  && previous.permissionDigest != f.permissionDigest)
  {
    assert Observable(previous)[..STATE_CHARS] == previous.stateDigest;
  }

  datatype Observed = Observed(key: string, state: FileState)

  datatype Record =
    | Change(entries: Entries, key: string, kind: ChangeKind, monitoring: bool)
    | Baseline(entries: Entries)

  function CursorOf(r: Record): string {
    Serialize(r.entries)
  }

  // One observation of every configured path; keys are distinct and eight characters long.
  predicate Snapshot(current: seq<Observed>) {
    && (forall i :: 0 <= i < |current| ==>
          Alnum(current[i].key) && |current[i].key| == KEY_CHARS && ValidState(current[i].state))
    && (forall i, j :: 0 <= i < j < |current| ==> current[i].key != current[j].key)
  }

  function Names(current: seq<Observed>): set<string> {
    set o | o in current :: o.key
  }

  function Overlaid(m: Entries, current: seq<Observed>): Entries
    decreases |current|
  {
    if current == [] then m else Overlaid(m[current[0].key := Observable(current[0].state)], current[1..])
  }

  function States(current: seq<Observed>): Entries {
    Overlaid(map[], current)
  }

  function Restricted(m: Entries, names: set<string>): Entries {
    map k | k in m && k in names :: m[k]
  }

  // The change records for the observations, each with the entries committed up to it.
  function Changes(current: seq<Observed>, baseline: Entries, committed: Entries): seq<Record>
    requires WellFormed(baseline)
  {
    if current == [] then []
    else
      var o := current[0];
      var c := committed[o.key := Observable(o.state)];
      ChangeAt(o, baseline, c) + Changes(current[1..], baseline, c)
  }

  // The record for one observation: none for a path that is new to the baseline or as it says.
  function ChangeAt(o: Observed, baseline: Entries, committed: Entries): (out: seq<Record>)
    requires WellFormed(baseline)
    ensures |out| <= 1
  {
    if o.key in baseline && baseline[o.key] != Observable(o.state)
    then [Change(committed, o.key, Classify(baseline[o.key], o.state), o.state.readable)] else []
  }

  // A whole scan. `stop` is the number of observations compared before a stop request is seen.
  function Scanned(baseline: Entries, current: seq<Observed>, stop: nat): seq<Record>
    requires WellFormed(baseline)
  {
    var committed := Restricted(baseline, Names(current));
    if baseline == map[] then [Baseline(States(current))]
    else if stop < |current| then Changes(current[..stop], baseline, committed)
    else
      var final := Overlaid(committed, current);
      Changes(current, baseline, committed)
      + (if final.Keys != baseline.Keys then [Baseline(final)] else [])
  }

  method Scan(cursor: Option<string>, current: seq<Observed>, stop: nat) returns (records: seq<Record>)
    requires Snapshot(current)
    ensures WellFormed(Parse(cursor)) && records == Scanned(Parse(cursor), current, stop)
    ensures ScanMeans(Parse(cursor), current, stop, records)
  {
    ParseIsWellFormed(cursor);
    records := ScanAgainst(Parse(cursor), current, stop);
    ScanIsMeant(Parse(cursor), current, stop);
  }

  method ScanAgainst(baseline: Entries, current: seq<Observed>, stop: nat) returns (records: seq<Record>)
    requires WellFormed(baseline)
    ensures records == Scanned(baseline, current, stop)
  {
    if baseline == map[] {
      return [Baseline(States(current))];
    }
    records := [];
    ghost var start := Restricted(baseline, Names(current));
    var committed := Restricted(baseline, Names(current));
    var i := 0;
    while i < |current|
      invariant i <= |current| && i <= stop
      invariant committed == Overlaid(start, current[..i])
      invariant records == Changes(current[..i], baseline, start)
    {
      if i == stop {
        return;
      }
      NextObservation(current, i, baseline, start);
      committed := committed[current[i].key := Observable(current[i].state)];
      records := records + ChangeAt(current[i], baseline, committed);
      i := i + 1;
    }
    assert current[..i] == current;
    if committed.Keys != baseline.Keys {
      records := records + [Baseline(committed)];
    }
  }

  lemma NextObservation(current: seq<Observed>, i: nat, baseline: Entries, start: Entries)
    requires WellFormed(baseline) && i < |current|
    ensures var c := Overlaid(start, current[..i])[current[i].key := Observable(current[i].state)];
            && Overlaid(start, current[..i + 1]) == c
            && Changes(current[..i + 1], baseline, start)
               == Changes(current[..i], baseline, start) + ChangeAt(current[i], baseline, c)
  {
    assert current[..i + 1] == current[..i] + [current[i]];
    ChangesSnoc(current[..i], current[i], baseline, start);
  }

  lemma {:induction false} ParseItemsWellFormed(items: seq<string>)
    ensures ParseItems(items).Some? ==> WellFormed(ParseItems(items).value)
  {
    if items != [] { ParseItemsWellFormed(items[..|items| - 1]); }
  }

  lemma ParseIsWellFormed(cursor: Option<string>)
    ensures WellFormed(Parse(cursor))
  {
    if cursor.Some? { ParseItemsWellFormed(Split(cursor.value)); }
  }

  // ---------------------------------------------------------------- facts about scans

  lemma {:induction false} ChangesConcat(a: seq<Observed>, b: seq<Observed>, baseline: Entries, committed: Entries)
    requires WellFormed(baseline)
    ensures Overlaid(committed, a + b) == Overlaid(Overlaid(committed, a), b)
    ensures Changes(a + b, baseline, committed)
            == Changes(a, baseline, committed) + Changes(b, baseline, Overlaid(committed, a))
  {
    if a == [] {
      assert a + b == b;
    } else {
      assert (a + b)[0] == a[0] && (a + b)[1..] == a[1..] + b;
      ChangesConcat(a[1..], b, baseline, committed[a[0].key := Observable(a[0].state)]);
    }
  }

  lemma ChangesSnoc(a: seq<Observed>, o: Observed, baseline: Entries, committed: Entries)
    requires WellFormed(baseline)
    ensures var c := Overlaid(committed, a)[o.key := Observable(o.state)];
            && Overlaid(committed, a + [o]) == c
            && Changes(a + [o], baseline, committed) == Changes(a, baseline, committed)
                 + ChangeAt(o, baseline, c)
  {
    ChangesConcat(a, [o], baseline, committed);
    assert [o][1..] == [];
  }

  // What overlaying observations on a map does, key by key.
  lemma {:induction false} OverlaidKeys(m: Entries, current: seq<Observed>)
    ensures Overlaid(m, current).Keys == m.Keys + Names(current)
    ensures forall k :: k in m && k !in Names(current) ==> Overlaid(m, current)[k] == m[k]
    decreases |current|
  {
    if current != [] {
      var o, rest := current[0], current[1..];
      assert Names(current) == {o.key} + Names(rest) by {
        assert forall x :: x in current <==> x == o || x in rest;
      }
      OverlaidKeys(m[o.key := Observable(o.state)], rest);
    }
  }

  lemma {:induction false} OverlaidAt(m: Entries, current: seq<Observed>, i: nat)
    requires Snapshot(current) && i < |current|
    ensures current[i].key in Overlaid(m, current)
    ensures Overlaid(m, current)[current[i].key] == Observable(current[i].state)
    decreases |current|
  {
    var o, rest := current[0], current[1..];
    var m' := m[o.key := Observable(o.state)];
    if i == 0 {
      OverlaidKeys(m', rest);
      assert o.key !in Names(rest);
    } else {
      OverlaidAt(m', rest, i - 1);
    }
  }

  lemma {:induction false} OverlaidWellFormed(m: Entries, current: seq<Observed>)
    requires WellFormed(m) && forall i :: 0 <= i < |current| ==> Alnum(current[i].key) && ValidState(current[i].state)
    ensures WellFormed(Overlaid(m, current))
    decreases |current|
  {
    if current != [] {
      var o := current[0];
      OverlaidWellFormed(m[o.key := Observable(o.state)], current[1..]);
    }
  }

  // Only the baseline entries of the scanned paths matter.
  lemma {:induction false} ChangesFrame(current: seq<Observed>, b: Entries, c: Entries, committed: Entries)
    requires WellFormed(b) && WellFormed(c)
    requires forall i :: 0 <= i < |current| ==>
               (current[i].key in b <==> current[i].key in c)
               && (current[i].key in b ==> b[current[i].key] == c[current[i].key])
    ensures Changes(current, b, committed) == Changes(current, c, committed)
  {
    if current != [] {
      ChangesFrame(current[1..], b, c, committed[current[0].key := Observable(current[0].state)]);
    }
  }

  // Paths that are as the baseline says produce nothing.
  lemma {:induction false} NoChanges(current: seq<Observed>, m: Entries)
    requires WellFormed(m)
    requires forall i :: 0 <= i < |current| ==> current[i].key in m && m[current[i].key] == Observable(current[i].state)
    ensures Changes(current, m, m) == [] && Overlaid(m, current) == m
  {
    if current != [] {
      assert m[current[0].key := Observable(current[0].state)] == m;
      NoChanges(current[1..], m);
    }
  }

  // A scan that emits nothing found every path it knows as the baseline says.
  lemma {:induction false} SilentMeansSame(current: seq<Observed>, baseline: Entries, committed: Entries)
    requires WellFormed(baseline) && Changes(current, baseline, committed) == []
    ensures forall i :: 0 <= i < |current| && current[i].key in baseline
                        ==> baseline[current[i].key] == Observable(current[i].state)
  {
    if current != [] {
      SilentMeansSame(current[1..], baseline, committed[current[0].key := Observable(current[0].state)]);
    }
  }

  predicate Differs(o: Observed, baseline: Entries) {
    o.key in baseline && baseline[o.key] != Observable(o.state)
  }

  // The j-th record is emitted at observation LocateRecord - 1, which differs from the baseline, and it
  // carries the entries committed up to there.
  ghost function LocateRecord(current: seq<Observed>, baseline: Entries, committed: Entries, j: nat): (n: nat)
    requires WellFormed(baseline) && 1 <= j <= |Changes(current, baseline, committed)|
    ensures 1 <= n <= |current| && |Changes(current[..n], baseline, committed)| == j
    ensures Changes(current, baseline, committed)[j - 1].entries == Overlaid(committed, current[..n])
    ensures Differs(current[n - 1], baseline)
  {
    LastObservation(current, baseline, committed);
    var before := current[..|current| - 1];
    if j <= |Changes(before, baseline, committed)| then
      var n := LocateRecord(before, baseline, committed, j);
      assert before[..n] == current[..n];
      n
    else
      assert current[..|current|] == current;
      |current|
  }

  // The last observation adds at most one record to those before it.
  lemma LastObservation(current: seq<Observed>, baseline: Entries, committed: Entries)
    requires WellFormed(baseline) && Changes(current, baseline, committed) != []
    ensures var n := |current| - 1;
            && n >= 0
            && var early := Changes(current[..n], baseline, committed);
               var all := Changes(current, baseline, committed);
               && early <= all && |all| <= |early| + 1
               && (|all| == |early| + 1 ==>
                     Differs(current[n], baseline) && all[|early|].entries == Overlaid(committed, current))
  {
    var n := |current| - 1;
    assert current == current[..n] + [current[n]];
    ChangesSnoc(current[..n], current[n], baseline, committed);
  }

  lemma NamesOfParts(current: seq<Observed>, n: nat)
    requires Snapshot(current) && n <= |current|
    ensures Names(current) == Names(current[..n]) + Names(current[n..]) && Names(current[..n]) !! Names(current[n..])
    ensures Snapshot(current[..n]) && Snapshot(current[n..])
  {
    assert current == current[..n] + current[n..];
  }

  // ---------------------------------------------------------------- what a scan emits, path by path

  // The first n paths have the states just seen, the others those of the baseline, and no path is added.
  ghost predicate SeenUpTo(baseline: Entries, current: seq<Observed>, n: nat, m: Entries)
    requires n <= |current|
  {
    && m.Keys <= Names(current)
    && (forall i :: 0 <= i < n ==>
          && current[i].key in m
          && m[current[i].key] == current[i].state.stateDigest + current[i].state.permissionDigest)
    && (forall i :: n <= i < |current| ==>
          && (current[i].key in m <==> current[i].key in baseline)
          && (current[i].key in m ==> m[current[i].key] == baseline[current[i].key]))
  }

  predicate HasChanged(baseline: Entries, o: Observed) {
    o.key in baseline && baseline[o.key] != o.state.stateDigest + o.state.permissionDigest
  }

  // The state that the baseline holds, and the one just seen, give the label.
  predicate KindMeans(before: string, f: FileState, kind: ChangeKind)
    requires |before| >= 16
  {
    && (kind == Disappeared <==> !f.present)
    && (kind == Appeared <==> f.present && before[..16] == "0000000000000000")
    && (kind == Permissions <==> f.present && before[..16] != "0000000000000000" && before[..16] == f.stateDigest)
    && (kind == Content ==> f.readable) && (kind == Metadata ==> !f.readable)
  }

  // The record of the change at path p.
  ghost predicate RecordMeans(baseline: Entries, current: seq<Observed>, p: nat, r: Record)
    requires p < |current| && WellFormed(baseline)
  {
    && HasChanged(baseline, current[p]) && r.Change? && r.key == current[p].key
    && KindMeans(baseline[r.key], current[p].state, r.kind) && r.monitoring == current[p].state.readable
    && SeenUpTo(baseline, current, p + 1, r.entries)
  }

  // One record for each changed path among the first n, in the order of the paths.
  ghost predicate ChangesMean(
    baseline: Entries, current: seq<Observed>, n: nat, records: seq<Record>, paths: seq<nat>)
    requires n <= |current| && WellFormed(baseline)
  {
    EachMeant(baseline, current, records, paths) && AllChanged(baseline, current, n, paths)
  }

  ghost predicate EachMeant(baseline: Entries, current: seq<Observed>, records: seq<Record>, paths: seq<nat>)
    requires WellFormed(baseline)
  {
    && |records| == |paths|
    && forall j :: 0 <= j < |paths| ==>
         paths[j] < |current| && RecordMeans(baseline, current, paths[j], records[j])
  }

  ghost predicate AllChanged(baseline: Entries, current: seq<Observed>, n: nat, paths: seq<nat>)
    requires n <= |current|
  {
    && (forall i, j :: 0 <= i < j < |paths| ==> paths[i] < paths[j])
    && (forall j :: 0 <= j < |paths| ==> paths[j] < n)
    && (forall p: nat :: p < n && HasChanged(baseline, current[p]) ==> p in paths)
  }

  // Without a baseline all states are recorded at once. Otherwise there is a record for each changed path
  // up to the stop, and at the end a new baseline if paths were added or removed.
  ghost predicate ScanMeans(baseline: Entries, current: seq<Observed>, stop: nat, records: seq<Record>)
    requires WellFormed(baseline)
  {
    if baseline == map[] then
      |records| == 1 && records[0].Baseline? && SeenUpTo(baseline, current, |current|, records[0].entries)
    else if stop < |current| then exists paths :: ChangesMean(baseline, current, stop, records, paths)
    else
      var last := |records| - 1;
      if baseline.Keys == set o | o in current :: o.key then
        exists paths :: ChangesMean(baseline, current, |current|, records, paths)
      else
        && last >= 0 && records[last].Baseline?
        && SeenUpTo(baseline, current, |current|, records[last].entries)
        && exists paths :: ChangesMean(baseline, current, |current|, records[..last], paths)
  }

  lemma HalfwayMeans(baseline: Entries, current: seq<Observed>, n: nat)
    requires WellFormed(baseline) && Snapshot(current) && n <= |current|
    ensures SeenUpTo(baseline, current, n, Overlaid(Restricted(baseline, Names(current)), current[..n]))
  {
    CommittedHalfway(baseline, current, n);
  }

  lemma RecordIsMeant(baseline: Entries, current: seq<Observed>, p: nat)
    requires WellFormed(baseline) && Snapshot(current) && p < |current|
    ensures var entries := Overlaid(Restricted(baseline, Names(current)), current[..p + 1]);
            var out := ChangeAt(current[p], baseline, entries);
            if HasChanged(baseline, current[p]) then |out| == 1 && RecordMeans(baseline, current, p, out[0])
            else out == []
  {
    HalfwayMeans(baseline, current, p + 1);
  }

  lemma NextIsCovered(baseline: Entries, current: seq<Observed>, n: nat, paths: seq<nat>)
    requires n < |current| && AllChanged(baseline, current, n, paths)
    ensures AllChanged(baseline, current, n + 1, if HasChanged(baseline, current[n]) then paths + [n] else paths)
  {
    var paths' := if HasChanged(baseline, current[n]) then paths + [n] else paths;
    forall p: nat | p < n + 1 && HasChanged(baseline, current[p])
      ensures p in paths'
    {
      assert p < n ==> p in paths;
    }
  }

  lemma OneMoreRecord(
    baseline: Entries, current: seq<Observed>, records: seq<Record>, paths: seq<nat>, p: nat, r: Record)
    requires WellFormed(baseline) && EachMeant(baseline, current, records, paths)
    requires p < |current| && RecordMeans(baseline, current, p, r)
    ensures EachMeant(baseline, current, records + [r], paths + [p])
  {
    forall j | 0 <= j < |paths + [p]|
      ensures (paths + [p])[j] < |current|
      ensures RecordMeans(baseline, current, (paths + [p])[j], (records + [r])[j])
    {
      if j < |paths| {
        assert RecordMeans(baseline, current, paths[j], records[j]);
      }
    }
  }

  lemma {:induction false} ChangesAreMeant(baseline: Entries, current: seq<Observed>, n: nat) returns (paths: seq<nat>)
    requires WellFormed(baseline) && Snapshot(current) && n <= |current|
    ensures ChangesMean(baseline, current, n,
                        Changes(current[..n], baseline, Restricted(baseline, Names(current))), paths)
  {
    if n == 0 {
      paths := [];
    } else {
      var before := ChangesAreMeant(baseline, current, n - 1);
      paths := NextChangeIsMeant(baseline, current, n - 1, before);
    }
  }

  lemma NextChangeIsMeant(baseline: Entries, current: seq<Observed>, n: nat, before: seq<nat>) returns (paths: seq<nat>)
    requires WellFormed(baseline) && Snapshot(current) && n < |current|
    requires ChangesMean(baseline, current, n,
                         Changes(current[..n], baseline, Restricted(baseline, Names(current))), before)
    ensures ChangesMean(baseline, current, n + 1,
                        Changes(current[..n + 1], baseline, Restricted(baseline, Names(current))), paths)
  {
    var start := Restricted(baseline, Names(current));
    var records := Changes(current[..n], baseline, start);
    var out := ChangeAt(current[n], baseline, Overlaid(start, current[..n + 1]));
    NextObservation(current, n, baseline, start);
    NextIsCovered(baseline, current, n, before);
    RecordIsMeant(baseline, current, n);
    if HasChanged(baseline, current[n]) {
      paths := before + [n];
      OneMoreRecord(baseline, current, records, before, n, out[0]);
      assert records + out == records + [out[0]];
    } else {
      paths := before;
      assert records + out == records;
    }
  }

  lemma FirstScanIsMeant(current: seq<Observed>)
    requires Snapshot(current)
    ensures SeenUpTo(map[], current, |current|, States(current))
  {
    HalfwayMeans(map[], current, |current|);
    assert current[..|current|] == current && Restricted(map[], Names(current)) == map[];
  }

  // A full scan commits exactly the paths it saw.
  lemma KnownPaths(baseline: Entries, current: seq<Observed>)
    ensures Overlaid(Restricted(baseline, Names(current)), current).Keys == set o | o in current :: o.key
  {
    var start := Restricted(baseline, Names(current));
    OverlaidKeys(start, current);
    assert start.Keys + Names(current) == Names(current);
  }

  lemma ScanIsMeant(baseline: Entries, current: seq<Observed>, stop: nat)
    requires WellFormed(baseline) && Snapshot(current)
    ensures ScanMeans(baseline, current, stop, Scanned(baseline, current, stop))
  {
    if baseline == map[] {
      FirstScanIsMeant(current);
    } else if stop < |current| {
      var paths := ChangesAreMeant(baseline, current, stop);
    } else {
      FullScanIsMeant(baseline, current, stop);
    }
  }

  lemma FullScanIsMeant(baseline: Entries, current: seq<Observed>, stop: nat)
    requires WellFormed(baseline) && Snapshot(current) && stop >= |current| && baseline != map[]
    ensures ScanMeans(baseline, current, stop, Scanned(baseline, current, stop))
  {
    var paths := ChangesAreMeant(baseline, current, |current|);
    HalfwayMeans(baseline, current, |current|);
    KnownPaths(baseline, current);
    assert current[..|current|] == current;
    var records := Scanned(baseline, current, stop);
    var changes := Changes(current, baseline, Restricted(baseline, Names(current)));
    assert changes + [] == changes;
    assert records == changes || records[..|records| - 1] == changes;
  }

  // Entries committed in the middle of a scan: new for the paths before n, still old for the others.
  lemma CommittedHalfway(baseline: Entries, current: seq<Observed>, n: nat)
    requires WellFormed(baseline) && Snapshot(current) && n <= |current|
    ensures var m := Overlaid(Restricted(baseline, Names(current)), current[..n]);
            && WellFormed(m) && m.Keys <= Names(current) && Restricted(m, Names(current)) == m
            && (forall i :: 0 <= i < n ==> current[i].key in m && m[current[i].key] == Observable(current[i].state))
            && (forall i :: n <= i < |current| ==>
                  (current[i].key in m <==> current[i].key in baseline)
                  && (current[i].key in m ==> m[current[i].key] == baseline[current[i].key]))
  {
    var start, a := Restricted(baseline, Names(current)), current[..n];
    NamesOfParts(current, n);
    OverlaidKeys(start, a);
    OverlaidWellFormed(start, a);
    CommittedBefore(start, current, n);
    forall i | n <= i < |current|
      ensures (current[i].key in Overlaid(start, a) <==> current[i].key in baseline)
              && (current[i].key in Overlaid(start, a) ==>
                  Overlaid(start, a)[current[i].key] == baseline[current[i].key])
    {
      NotCommittedYet(baseline, current, n, i);
    }
  }

  lemma CommittedBefore(start: Entries, current: seq<Observed>, n: nat)
    requires Snapshot(current) && n <= |current|
    ensures forall i | 0 <= i < n :: current[i].key in Overlaid(start, current[..n])
                                     && Overlaid(start, current[..n])[current[i].key] == Observable(current[i].state)
  {
    forall i | 0 <= i < n
      ensures current[i].key in Overlaid(start, current[..n])
              && Overlaid(start, current[..n])[current[i].key] == Observable(current[i].state)
    {
      OverlaidAt(start, current[..n], i);
    }
  }

  lemma NotCommittedYet(baseline: Entries, current: seq<Observed>, n: nat, i: nat)
    requires Snapshot(current) && n <= i < |current|
    ensures var m := Overlaid(Restricted(baseline, Names(current)), current[..n]); var key := current[i].key;
            (key in m <==> key in baseline) && (key in m ==> m[key] == baseline[key])
  {
    NamesOfParts(current, n);
    assert current[n..][i - n] == current[i] && current[i] in current;
    assert current[i].key in Names(current[n..]);
    OverlaidKeys(Restricted(baseline, Names(current)), current[..n]);
  }

  // ---------------------------------------------------------------- the promises

  // Entries that are new for the first n paths and old for the rest produce the rest of the changes.
  lemma ResumedChanges(baseline: Entries, current: seq<Observed>, n: nat, m: Entries)
    requires WellFormed(baseline) && WellFormed(m) && n <= |current|
    requires forall i :: 0 <= i < n ==> current[i].key in m && m[current[i].key] == Observable(current[i].state)
    requires forall i :: n <= i < |current| ==>
               (current[i].key in m <==> current[i].key in baseline)
               && (current[i].key in m ==> m[current[i].key] == baseline[current[i].key])
    ensures Changes(current, m, m) == Changes(current[n..], baseline, m)
  {
    var a, b := current[..n], current[n..];
    assert current == a + b;
    assert Changes(a, m, m) == [] && Overlaid(m, a) == m by {
      assert forall i :: 0 <= i < |a| ==> a[i] == current[i];
      NoChanges(a, m);
    }
    ChangesConcat(a, b, m, m);
    assert Changes(b, baseline, m) == Changes(b, m, m) by {
      assert forall i :: 0 <= i < |b| ==> b[i] == current[n + i];
      ChangesFrame(b, baseline, m, m);
    }
  }

  lemma RemainingChanges(baseline: Entries, current: seq<Observed>, n: nat, committed: Entries)
    requires WellFormed(baseline) && n <= |current|
    ensures var j := |Changes(current[..n], baseline, committed)|;
            && j <= |Changes(current, baseline, committed)|
            && Changes(current, baseline, committed)[j..]
               == Changes(current[n..], baseline, Overlaid(committed, current[..n]))
  {
    assert current == current[..n] + current[n..];
    ChangesConcat(current[..n], current[n..], baseline, committed);
  }

  // Stop after any number of committed change records and scan the same state again: exactly the
  // remaining change records come out, with the same cursors.
  lemma ResumeAfterPrefix(baseline: Entries, current: seq<Observed>, j: nat)
    requires WellFormed(baseline) && Snapshot(current)
    requires 1 <= j <= |Changes(current, baseline, Restricted(baseline, Names(current)))|
    ensures var all := Changes(current, baseline, Restricted(baseline, Names(current)));
            var resumed := Parse(Some(CursorOf(all[j - 1])));
            && WellFormed(resumed) && resumed != map[]
            && Changes(current, resumed, Restricted(resumed, Names(current))) == all[j..]
  {
    var start := Restricted(baseline, Names(current));
    var n := LocateRecord(current, baseline, start, j);
    var m := Overlaid(start, current[..n]);
    CommittedHalfway(baseline, current, n);
    RoundTrip(m);
    assert current[0].key in m;
    ResumedChanges(baseline, current, n, m);
    RemainingChanges(baseline, current, n, start);
  }

  lemma StatesFacts(current: seq<Observed>)
    requires Snapshot(current)
    ensures States(current).Keys == Names(current) && WellFormed(States(current))
    ensures forall i :: 0 <= i < |current| ==>
              current[i].key in States(current) && States(current)[current[i].key] == Observable(current[i].state)
  {
    OverlaidKeys(map[], current);
    OverlaidWellFormed(map[], current);
    forall i | 0 <= i < |current|
      ensures current[i].key in States(current) && States(current)[current[i].key] == Observable(current[i].state)
    {
      OverlaidAt(map[], current, i);
    }
  }

  // Entries that hold exactly the observed state of exactly the observed paths.
  lemma IsStates(m: Entries, current: seq<Observed>)
    requires Snapshot(current) && m.Keys <= Names(current)
    requires forall i :: 0 <= i < |current| ==> current[i].key in m && m[current[i].key] == Observable(current[i].state)
    ensures m == States(current)
  {
    StatesFacts(current);
    forall k | k in Names(current) ensures k in m && m[k] == States(current)[k] {
      var o :| o in current && o.key == k;
    }
  }

  // The baseline that remains once every record of a scan is committed.
  function Committed(baseline: Entries, records: seq<Record>): Entries {
    if records == [] then baseline else Parse(Some(CursorOf(records[|records| - 1])))
  }

  // Once all records of a whole scan are committed, the baseline is exactly the observed state, and
  // scanning that state again emits nothing.
  lemma FullScanSettles(baseline: Entries, current: seq<Observed>)
    requires WellFormed(baseline) && Snapshot(current) && current != []
    ensures Committed(baseline, Scanned(baseline, current, |current|)) == States(current)
    ensures WellFormed(States(current)) && Scanned(States(current), current, |current|) == []
  {
    ScanCarriesStates(baseline, current);
    ScanOfStates(current);
    CommittedIsCarried(baseline, Scanned(baseline, current, |current|));
  }

  // The entries that the last record carries.
  function Carried(baseline: Entries, records: seq<Record>): Entries {
    if records == [] then baseline else records[|records| - 1].entries
  }

  lemma CommittedIsCarried(baseline: Entries, records: seq<Record>)
    requires WellFormed(Carried(baseline, records))
    ensures Committed(baseline, records) == Carried(baseline, records)
  {
    RoundTrip(Carried(baseline, records));
  }

  lemma ScanCarriesStates(baseline: Entries, current: seq<Observed>)
    requires WellFormed(baseline) && Snapshot(current)
    ensures Carried(baseline, Scanned(baseline, current, |current|)) == States(current)
  {
    if baseline != map[] {
      FinalIsStates(baseline, current);
      if States(current).Keys == baseline.Keys {
        ChangesSettle(baseline, current);
      }
    }
  }

  lemma FinalIsStates(baseline: Entries, current: seq<Observed>)
    requires WellFormed(baseline) && Snapshot(current)
    ensures Overlaid(Restricted(baseline, Names(current)), current) == States(current)
  {
    CommittedHalfway(baseline, current, |current|);
    assert current[..|current|] == current;
    IsStates(Overlaid(Restricted(baseline, Names(current)), current), current);
  }

  // With the same paths as before, the change records alone carry the new baseline.
  lemma ChangesSettle(baseline: Entries, current: seq<Observed>)
    requires WellFormed(baseline) && Snapshot(current) && States(current).Keys == baseline.Keys
    ensures Carried(baseline, Changes(current, baseline, Restricted(baseline, Names(current)))) == States(current)
  {
    StatesFacts(current);
    if Changes(current, baseline, Restricted(baseline, Names(current))) == [] {
      SilentMeansSame(current, baseline, Restricted(baseline, Names(current)));
      SilentIsStates(baseline, current);
    } else {
      LastChangeIsFinal(baseline, current, Restricted(baseline, Names(current)));
    }
  }

  lemma SilentIsStates(baseline: Entries, current: seq<Observed>)
    requires Snapshot(current) && baseline.Keys == Names(current)
    requires forall i :: 0 <= i < |current| && current[i].key in baseline ==>
                           baseline[current[i].key] == Observable(current[i].state)
    ensures baseline == States(current)
  {
    forall i | 0 <= i < |current|
      ensures current[i].key in baseline
    {
      assert current[i] in current;
    }
    IsStates(baseline, current);
  }

  lemma ScanOfStates(current: seq<Observed>)
    requires Snapshot(current) && current != []
    ensures WellFormed(States(current)) && Scanned(States(current), current, |current|) == []
  {
    var states := States(current);
    StatesFacts(current);
    assert current[0].key in states;
    assert Restricted(states, Names(current)) == states;
    NoChanges(current, states);
  }

  // The entries that the last record carries, and the observations it covers: nothing changes after.
  lemma LastRecord(baseline: Entries, current: seq<Observed>, start: Entries) returns (n: nat, m: Entries)
    requires WellFormed(baseline) && Changes(current, baseline, start) != []
    ensures n <= |current| && m == Overlaid(start, current[..n]) && Changes(current[n..], baseline, m) == []
    ensures Carried(baseline, Changes(current, baseline, start)) == m
  {
    n := LocateRecord(current, baseline, start, |Changes(current, baseline, start)|);
    m := Overlaid(start, current[..n]);
    RemainingChanges(baseline, current, n, start);
  }

  // If no path was added or removed, the last change record already carries the final baseline.
  lemma LastChangeIsFinal(baseline: Entries, current: seq<Observed>, start: Entries)
    requires WellFormed(baseline) && Snapshot(current) && Names(current) == baseline.Keys
    requires start == Restricted(baseline, Names(current)) && Changes(current, baseline, start) != []
    ensures Carried(baseline, Changes(current, baseline, start)) == States(current)
  {
    var n, m := LastRecord(baseline, current, start);
    SilentRestIsStates(baseline, current, n, m);
  }

  lemma SilentRestIsStates(baseline: Entries, current: seq<Observed>, n: nat, m: Entries)
    requires WellFormed(baseline) && Snapshot(current) && Names(current) == baseline.Keys && n <= |current|
    requires m == Overlaid(Restricted(baseline, Names(current)), current[..n])
    requires Changes(current[n..], baseline, m) == []
    ensures m == States(current)
  {
    CommittedHalfway(baseline, current, n);
    SilentMeansSame(current[n..], baseline, m);
    forall i | n <= i < |current|
      ensures current[i].key in m && m[current[i].key] == Observable(current[i].state)
    {
      assert current[n..][i - n] == current[i] && current[i] in current;
    }
    IsStates(m, current);
  }

  lemma OneFile(key: string, f: FileState)
    requires Snapshot([Observed(key, f)])
    ensures Names([Observed(key, f)]) == {key} && WellFormed(map[key := Observable(f)])
    ensures States([Observed(key, f)]) == map[key := Observable(f)]
    ensures forall m: Entries :: Overlaid(m, [Observed(key, f)]) == m[key := Observable(f)]
  {
    var at := [Observed(key, f)];
    assert Names(at) == {key};
    IsStates(map[key := Observable(f)], at);
    StatesFacts(at);
    assert at[1..] == [];
  }

  // The scan of a single changed file: one record, carrying the new state.
  lemma OneChange(key: string, a: FileState, b: FileState)
    requires Snapshot([Observed(key, a)]) && Snapshot([Observed(key, b)]) && Observable(a) != Observable(b)
    ensures var states := States([Observed(key, a)]);
            WellFormed(states) && Scanned(states, [Observed(key, b)], 1)
              == [Change(States([Observed(key, b)]), key, Classify(Observable(a), b), b.readable)]
  {
    var atB := [Observed(key, b)];
    var states, after := map[key := Observable(a)], map[key := Observable(b)];
    OneFile(key, a);
    OneFile(key, b);
    assert Restricted(states, Names(atB)) == states;
    assert Changes(atB, states, states) == ChangeAt(atB[0], states, after) by {
      ChangesSnoc([], atB[0], states, states);
      assert [] + atB == atB && states[key := Observable(b)] == after;
      assert [] + ChangeAt(atB[0], states, after) == ChangeAt(atB[0], states, after);
    }
  }

  // ---------------------------------------------------------------- when cursors recur

  // Two records have the same cursor, and with it the same event identity, exactly when they carry the
  // same entries.
  lemma CursorsIdentifyEntries(a: Record, b: Record)
    requires WellFormed(a.entries) && WellFormed(b.entries)
    ensures CursorOf(a) == CursorOf(b) <==> a.entries == b.entries
  {
    RoundTrip(a.entries);
    RoundTrip(b.entries);
  }

  lemma ChangesWellFormed(baseline: Entries, current: seq<Observed>, j: nat)
    requires WellFormed(baseline) && Snapshot(current)
    requires 1 <= j <= |Changes(current, baseline, Restricted(baseline, Names(current)))|
    ensures WellFormed(Changes(current, baseline, Restricted(baseline, Names(current)))[j - 1].entries)
  {
    CommittedHalfway(baseline, current, LocateRecord(current, baseline, Restricted(baseline, Names(current)), j));
  }

  // And that is so of the records of any two scans, of any files at any time, stopped early or not.
  lemma RecordsShareACursor(
    baseline: Entries, current: seq<Observed>, stop: nat, i: nat,
    baseline': Entries, current': seq<Observed>, stop': nat, j: nat)
    requires WellFormed(baseline) && Snapshot(current) && i < |Scanned(baseline, current, stop)|
    requires WellFormed(baseline') && Snapshot(current') && j < |Scanned(baseline', current', stop')|
    ensures var (a, b) := (Scanned(baseline, current, stop)[i], Scanned(baseline', current', stop')[j]);
            CursorOf(a) == CursorOf(b) <==> a.entries == b.entries
  {
    ScannedWellFormed(baseline, current, stop, i);
    ScannedWellFormed(baseline', current', stop', j);
    CursorsIdentifyEntries(Scanned(baseline, current, stop)[i], Scanned(baseline', current', stop')[j]);
  }

  lemma ScannedWellFormed(baseline: Entries, current: seq<Observed>, stop: nat, i: nat)
    requires WellFormed(baseline) && Snapshot(current) && i < |Scanned(baseline, current, stop)|
    ensures WellFormed(Scanned(baseline, current, stop)[i].entries)
  {
    var start := Restricted(baseline, Names(current));
    var n := if stop < |current| then stop else |current|;
    StatesFacts(current);
    OverlaidWellFormed(start, current);
    assert current[..|current|] == current;
    if baseline != map[] && i < |Changes(current[..n], baseline, start)| {
      PrefixWellFormed(baseline, current, n, i);
    }
  }

  lemma PrefixWellFormed(baseline: Entries, current: seq<Observed>, n: nat, i: nat)
    requires WellFormed(baseline) && Snapshot(current) && n <= |current|
    requires i < |Changes(current[..n], baseline, Restricted(baseline, Names(current)))|
    ensures WellFormed(Changes(current[..n], baseline, Restricted(baseline, Names(current)))[i].entries)
  {
    PrefixChanges(baseline, current, n, Restricted(baseline, Names(current)), i);
    ChangesWellFormed(baseline, current, i + 1);
  }

  lemma PrefixChanges(baseline: Entries, current: seq<Observed>, n: nat, committed: Entries, i: nat)
    requires WellFormed(baseline) && n <= |current| && i < |Changes(current[..n], baseline, committed)|
    ensures i < |Changes(current, baseline, committed)|
    ensures Changes(current, baseline, committed)[i] == Changes(current[..n], baseline, committed)[i]
  {
    assert current == current[..n] + current[n..];
    ChangesConcat(current[..n], current[n..], baseline, committed);
  }

  // Within one scan no two change records share a cursor: the later one has committed one more change.
  lemma OneScanNeverRepeats(baseline: Entries, current: seq<Observed>, i: nat, j: nat)
    requires WellFormed(baseline) && Snapshot(current)
    requires 1 <= i < j <= |Changes(current, baseline, Restricted(baseline, Names(current)))|
    ensures var all := Changes(current, baseline, Restricted(baseline, Names(current)));
            CursorOf(all[i - 1]) != CursorOf(all[j - 1])
  {
    var start := Restricted(baseline, Names(current));
    var all := Changes(current, baseline, start);
    var m := LocateRecord(current, baseline, start, i);
    var n := LocateRecord(current, baseline, start, j);
    FewerChangesEarlier(baseline, current, start, m, n);
    CommittedHalfway(baseline, current, m);
    CommittedHalfway(baseline, current, n);
    CursorsIdentifyEntries(all[i - 1], all[j - 1]);
  }

  lemma FewerChangesEarlier(baseline: Entries, current: seq<Observed>, committed: Entries, m: nat, n: nat)
    requires WellFormed(baseline) && m <= |current| && n <= |current|
    requires |Changes(current[..m], baseline, committed)| < |Changes(current[..n], baseline, committed)|
    ensures m < n
  {
    var k := if n <= m then n else m;
    assert current[..m][..k] == current[..k];
    RemainingChanges(baseline, current[..m], k, committed);
  }

  // Cursors do recur over time: a file that is changed, changed back and changed again yields the
  // same record, cursor included, for its first and its last change.
  lemma RevertedFileRepeatsCursor(key: string, a: FileState, b: FileState)
    requires Snapshot([Observed(key, a)]) && Snapshot([Observed(key, b)]) && Observable(a) != Observable(b)
    ensures var atA, atB := [Observed(key, a)], [Observed(key, b)];
            WellFormed(States(atA)) && WellFormed(States(atB))
            && var first, back := Scanned(States(atA), atB, 1), Scanned(States(atB), atA, 1);
               && first != [] && back != []
               && Committed(States(atA), first) == States(atB) && Committed(States(atB), back) == States(atA)
               && Scanned(Committed(States(atB), back), atB, 1) == first
  {
    OneChange(key, a, b);
    OneChange(key, b, a);
    FullScanSettles(States([Observed(key, a)]), [Observed(key, b)]);
    FullScanSettles(States([Observed(key, b)]), [Observed(key, a)]);
  }
}
