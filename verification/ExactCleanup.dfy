/** Ledger-driven cleanup of labelled container resources that may crash before any durable step and
    is then simply run again. `fuel` counts the durable steps left before the crash. */
module ExactCleanup {
  import opened Prelude

  type Project = string

  datatype Kind = Container | Network | Volume | Image

  datatype Item = Item(kind: Kind, id: nat)

  datatype Labels = Labels(project: Project, owner: string)

  // A temporary file or directory that the run recorded.
  type Artifact = nat

  type World = map<Item, Labels>

  // What the recovery file records for each of the two projects of one run.
  type Ledger = map<Project, set<Item>>

  datatype Identity = Identity(main: Project, restore: Project, owner: string)

  datatype Outcome = Finished | Crashed | Refused

  predicate Allowed(id: Identity, p: Project) {
    p == id.main || p == id.restore
  }

  // The resources that carry both labels.
  function Exact(world: World, id: Identity, p: Project): set<Item> {
    set it | it in world && world[it] == Labels(p, id.owner)
  }

  function MaxCount(k: Kind): nat {
    match k case Container => 4 case Network => 1 case Volume => 1 case Image => 3
  }

  function CountOf(items: set<Item>, k: Kind): nat {
    |set it | it in items && it.kind == k|
  }

  predicate WithinLimits(items: set<Item>) {
    forall k: Kind :: CountOf(items, k) <= MaxCount(k)
  }

  predicate LabelsAgree(world: World, id: Identity, p: Project) {
    && (forall it | it in world && world[it].project == p :: world[it].owner == id.owner)
    && (forall it | it in world && world[it].owner == id.owner :: Allowed(id, world[it].project))
  }

  // Nobody else has put these labels on anything, and the project is no larger than expected.
  predicate Clean(world: World, id: Identity, p: Project) {
    Allowed(id, p) && LabelsAgree(world, id, p) && WithinLimits(Exact(world, id, p))
  }

  // The ledger has no entry yet, or every resource that exists is recorded.
  predicate Recoverable(world: World, entries: set<Item>, id: Identity, p: Project) {
    Clean(world, id, p) && (entries == {} || Exact(world, id, p) <= entries)
  }

  // Containers go first, then networks, volumes and images.
  function Rank(k: Kind): nat {
    match k case Container => 0 case Network => 1 case Volume => 2 case Image => 3
  }

  predicate DeletedBefore(a: Item, b: Item) {
    Rank(a.kind) < Rank(b.kind) || (Rank(a.kind) == Rank(b.kind) && a.id <= b.id)
  }

  // Containers before networks before volumes before images, and of one kind by name.
  predicate GoesFirst(a: Item, b: Item) {
    if a.kind == b.kind then a.id <= b.id
    else a.kind == Container || b.kind == Image || (a.kind == Network && b.kind == Volume)
  }

  lemma OrderIsKept(a: Item, b: Item)
    ensures DeletedBefore(a, b) <==> GoesFirst(a, b)
  {
  }

  // Resources of one project went in that order, and those that are left come after the ones that went.
  ghost predicate WentInOrder(log: seq<Item>, world: World, original: World, owner: string) {
    && (forall i, j | 0 <= i < j < |log| && log[i] in original && log[j] in original
                      && original[log[i]] == original[log[j]] :: GoesFirst(log[i], log[j]))
    && (forall a, b | a in log && a in original && b in world && world[b] == original[a] && world[b].owner == owner ::
          GoesFirst(a, b))
  }

  // The labels name this project and its run together or not at all, and there are no more than four
  // containers, one network, one volume and three images.
  ghost predicate Sound(world: World, id: Identity, p: Project) {
    var found := set it | it in world && world[it] == Labels(p, id.owner);
    && (p == id.main || p == id.restore)
    && (forall it | it in world && world[it].project == p :: world[it].owner == id.owner)
    && (forall it | it in world && world[it].owner == id.owner :: world[it].project in {id.main, id.restore})
    && |set it | it in found && it.kind == Container| <= 4 && |set it | it in found && it.kind == Network| <= 1
    && |set it | it in found && it.kind == Volume| <= 1 && |set it | it in found && it.kind == Image| <= 3
  }

  lemma CleanIsSound(world: World, id: Identity, p: Project)
    ensures Clean(world, id, p) <==> Sound(world, id, p)
  {
    var found := Exact(world, id, p);
    assert found == set it | it in world && world[it] == Labels(p, id.owner);
    assert WithinLimits(found) <==>
           CountOf(found, Container) <= 4 && CountOf(found, Network) <= 1
           && CountOf(found, Volume) <= 1 && CountOf(found, Image) <= 3;
  }

  // The durable steps one project still needs: recording what was found unless something is recorded,
  // deleting what exists, and dropping every entry.
  function StepsNeeded(entries: set<Item>, exact: set<Item>): nat {
    (if entries == {} && exact != {} then 1 else 0) + |exact| + |entries + exact|
  }

  lemma DroppingIsOneStep(entries: set<Item>, exact: set<Item>, it: Item)
    requires exact <= entries && it in entries - exact
    ensures StepsNeeded(entries - {it}, exact) + 1 == StepsNeeded(entries, exact)
  {
    assert entries + exact == entries && (entries - {it}) + exact == entries - {it};
  }

  lemma DeletingIsOneStep(entries: set<Item>, exact: set<Item>, it: Item)
    requires it in entries && it in exact
    ensures StepsNeeded(entries, exact - {it}) + 1 == StepsNeeded(entries, exact)
  {
    assert entries + (exact - {it}) == entries + exact;
  }

  lemma RecordingIsOneStep(exact: set<Item>)
    requires exact != {}
    ensures StepsNeeded(exact, exact) + 1 == StepsNeeded({}, exact)
  {
    assert {} + exact == exact == exact + exact;
  }

  predicate OnlyProject(l0: Ledger, l1: Ledger, p: Project) {
    l1.Keys == l0.Keys && forall q :: q in l0 && q != p ==> l1[q] == l0[q]
  }

  function Sum(s: seq<nat>): nat {
    if s == [] then 0 else Sum(s[..|s| - 1]) + s[|s| - 1]
  }

  lemma {:induction false} SumOfPrefix(s: seq<nat>, k: nat)
    requires k <= |s|
    ensures Sum(s[..k]) <= Sum(s) && (k == |s| ==> Sum(s[..k]) == Sum(s))
  {
    if k < |s| {
      assert s[..|s| - 1][..k] == s[..k];
      SumOfPrefix(s[..|s| - 1], k);
    } else {
      assert s[..k] == s;
    }
  }

  lemma SumNext(s: seq<nat>, k: nat)
    requires k < |s|
    ensures Sum(s[..k + 1]) == Sum(s[..k]) + s[k]
  {
    assert s[..k + 1][..k] == s[..k];
  }

  predicate SubMap(part: World, whole: World) {
    forall it :: it in part ==> it in whole && part[it] == whole[it]
  }

  // Only this project's labelled resources disappear, and nothing appears.
  ghost predicate Confined(w0: World, w1: World, id: Identity, p: Project) {
    && SubMap(w1, w0)
    && (forall it :: it in w0 && it !in w1 ==> w0[it] == Labels(p, id.owner))
  }

  lemma ConfinedChain(w0: World, w1: World, w2: World, id: Identity, p: Project)
    requires Confined(w0, w1, id, p) && Confined(w1, w2, id, p)
    ensures Confined(w0, w2, id, p)
  {
  }

  // The run deleted every resource that carried the run's label, each exactly once, and nothing else, and
  // the resources of each project in their order.
  ghost predicate DeletedExactly(log: seq<Item>, original: World, id: Identity) {
    && (forall i, j :: 0 <= i < j < |log| ==> log[i] != log[j])
    && (forall it :: it in log <==> it in original && original[it].owner == id.owner)
    && (forall i, j | 0 <= i < j < |log| && original[log[i]].project == original[log[j]].project ::
          GoesFirst(log[i], log[j]))
  }

  lemma CleanShrinks(whole: World, part: World, id: Identity, p: Project)
    requires Clean(whole, id, p) && SubMap(part, whole)
    ensures Clean(part, id, p)
  {
    forall k: Kind
      ensures CountOf(Exact(part, id, p), k) <= MaxCount(k)
    {
      assert CountOf(Exact(whole, id, p), k) <= MaxCount(k);
      SubsetSize(set it | it in Exact(part, id, p) && it.kind == k, set it | it in Exact(whole, id, p) && it.kind == k);
    }
  }

  // Cleaning up one project leaves the other one exactly as it was.
  lemma OtherProjectKept(w0: World, w1: World, entries: set<Item>, id: Identity, p: Project, q: Project)
    requires p != q && Confined(w0, w1, id, p)
    ensures Exact(w1, id, q) == Exact(w0, id, q)
    ensures Recoverable(w0, entries, id, q) ==> Recoverable(w1, entries, id, q)
  {
    if Clean(w0, id, q) {
      CleanShrinks(w0, w1, id, q);
    }
  }

  class Recovery {
    const identity: Identity
    ghost const original: World
    var world: World
    var ledger: Ledger
    var ledgerFile: bool
    var log: seq<Item>
    ghost const owned: set<Artifact>
    ghost const originalDisk: set<Artifact>
    var artifacts: set<Artifact>
    var disk: set<Artifact>

    constructor (identity: Identity, world: World, restoreEntries: set<Item>, mainEntries: set<Item>,
                 artifacts: set<Artifact>, disk: set<Artifact>)
      requires identity.main != identity.restore
      ensures Valid() && ArtifactsOk() && ledgerFile && log == []
      ensures owned == this.artifacts == artifacts && originalDisk == this.disk == disk
      ensures this.identity == identity && original == this.world == world
      ensures ledger == map[identity.restore := restoreEntries, identity.main := mainEntries]
    {
      this.identity, original, this.world, log := identity, world, world, [];
      ledger := map[identity.restore := restoreEntries, identity.main := mainEntries];
      ledgerFile := true;
      owned, originalDisk, this.artifacts, this.disk := artifacts, disk, artifacts, disk;
    }

    // Only recorded temporary files are gone, and those that exist are still recorded.
    ghost predicate ArtifactsOk()
      reads this
    {
      artifacts <= owned && disk <= originalDisk && originalDisk - disk <= owned && disk * owned <= artifacts
    }

    ghost function ArtifactSteps(): nat
      reads this
    {
      |artifacts| + |artifacts * disk|
    }

    // Every deletion hit a resource that carried the run's label and is logged once; nothing else is gone.
    ghost predicate Valid()
      reads this
    {
      && identity.main != identity.restore
      && ledger.Keys == {identity.main, identity.restore}
      && SubMap(world, original)
      && (forall i, j :: 0 <= i < j < |log| ==> log[i] != log[j])
      && (forall it :: it in log <==> it in original && it !in world)
      && (forall it :: it in log ==> original[it].owner == identity.owner)
      && WentInOrder(log, world, original, identity.owner)
    }

    ghost predicate Ready(p: Project)
      requires p in ledger
      reads this
    {
      Recoverable(world, ledger[p], identity, p)
    }

    ghost function Needed(p: Project): nat
      requires p in ledger
      reads this
    {
      StepsNeeded(ledger[p], Exact(world, identity, p))
    }

    ghost function Work(): nat
      requires Valid()
      reads this
    {
      Remaining() + if ledgerFile then 1 else 0
    }

    ghost function Remaining(): nat
      requires Valid()
      reads this
    {
      Needed(identity.restore) + Needed(identity.main) + ArtifactSteps()
    }

    method Discover(p: Project) returns (found: Option<set<Item>>)
      ensures (found.Some? <==> Clean(world, identity, p)) && (found.Some? <==> Sound(world, identity, p))
      ensures found.Some? ==> found.value == Exact(world, identity, p)
    {
      CleanIsSound(world, identity, p);
      var exact := Exact(world, identity, p);
      if !Allowed(identity, p) || !LabelsAgree(world, identity, p) || !WithinLimits(exact) {
        return None;
      }
      return Some(exact);
    }

    // What is deleted is recorded in the ledger, exists with both labels, and nothing that has to go
    // before it is left.
    method DeleteExact(p: Project, it: Item)
      requires Valid() && p in ledger && it in ledger[p] && it in Exact(world, identity, p)
      requires Exact(world, identity, p) <= ledger[p] && forall other :: other in ledger[p] ==> GoesFirst(it, other)
      modifies this`world, this`log
      ensures Valid() && world == old(world) - {it} && log == old(log) + [it]
      ensures Exact(world, identity, p) == old(Exact(world, identity, p)) - {it}
      ensures Needed(p) + 1 == old(Needed(p))
    {
      DeletingIsOneStep(ledger[p], Exact(world, identity, p), it);
      assert Exact(world - {it}, identity, p) == Exact(world, identity, p) - {it};
      world := world - {it};
      log := log + [it];
    }

    method RemoveResource(p: Project, it: Item)
      requires Valid() && p in ledger && it in ledger[p]
      requires it !in Exact(world, identity, p) && Exact(world, identity, p) <= ledger[p]
      modifies this`ledger
      ensures Valid() && OnlyProject(old(ledger), ledger, p) && ledger[p] == old(ledger[p]) - {it}
      ensures Needed(p) + 1 == old(Needed(p))
    {
      DroppingIsOneStep(ledger[p], Exact(world, identity, p), it);
      ledger := ledger[p := ledger[p] - {it}];
    }

    method ReplaceProjectResources(p: Project, items: set<Item>)
      requires Valid() && p in ledger
      modifies this`ledger
      ensures Valid() && OnlyProject(old(ledger), ledger, p) && ledger[p] == items
    {
      ledger := ledger[p := items];
    }

    method FirstToDelete(s: set<Item>) returns (first: Item)
      requires s != {}
      ensures first in s && forall it :: it in s ==> GoesFirst(first, it)
    {
      first :| first in s;
      var todo := s - {first};
      while todo != {}
        invariant first in s && todo <= s
        invariant forall it | it in s && it !in todo :: DeletedBefore(first, it)
        decreases |todo|
      {
        var it :| it in todo;
        todo := todo - {it};
        if !DeletedBefore(first, it) {
          first := it;
        }
      }
      forall it | it in s
        ensures GoesFirst(first, it)
      {
        OrderIsKept(first, it);
      }
    }

    // Entries whose resource is already gone, because the last run died between deleting it and
    // dropping its entry, are dropped first.
    method DropMissing(p: Project, fuel: nat) returns (outcome: Outcome, left: nat)
      requires Valid() && p in ledger && Exact(world, identity, p) <= ledger[p]
      modifies this`ledger
      ensures Valid() && OnlyProject(old(ledger), ledger, p)
      ensures outcome != Refused && Exact(world, identity, p) <= ledger[p]
      ensures outcome == Finished ==> ledger[p] == Exact(world, identity, p)
      ensures outcome == Crashed ==> left == 0 && Needed(p) > 0
      ensures left <= fuel && Needed(p) + fuel == left + old(Needed(p))
    {
      left := fuel;
      var exact := Exact(world, identity, p);
      while ledger[p] - exact != {}
        invariant Valid() && OnlyProject(old(ledger), ledger, p) && exact <= ledger[p]
        invariant left <= fuel && Needed(p) + fuel == left + old(Needed(p))
        decreases Needed(p)
      {
        if left == 0 { return Crashed, 0; }
        var it := FirstToDelete(ledger[p] - exact);
        RemoveResource(p, it);
        left := left - 1;
      }
      return Finished, left;
    }

    // What exists is exactly what is recorded.
    ghost predicate InStep(p: Project)
      requires p in ledger
      reads this
    {
      Clean(world, identity, p) && ledger[p] == Exact(world, identity, p)
    }

    // The next resource in order is deleted, and then its entry dropped, only while what exists is
    // still exactly what is recorded.
    method DeleteNext(p: Project, fuel: nat) returns (outcome: Outcome, left: nat)
      requires Valid() && p in ledger && InStep(p) && ledger[p] != {}
      modifies this`world, this`ledger, this`log
      ensures Valid() && Confined(old(world), world, identity, p) && OnlyProject(old(ledger), ledger, p)
      ensures Ready(p) && (outcome == Finished ==> InStep(p))
      ensures if fuel >= 2 then outcome == Finished && left < fuel else outcome == Crashed && left == 0 && Needed(p) > 0
      ensures left <= fuel && Needed(p) + fuel == left + old(Needed(p))
    {
      var it := FirstToDelete(ledger[p]);
      var current := Discover(p);
      if current.None? || current.value != ledger[p] {
        return Refused, fuel;
      }
      outcome, left := Crashed, 0;
      if fuel > 0 {
        CleanShrinks(world, world - {it}, identity, p);
        DeleteExact(p, it);
        if fuel > 1 {
          RemoveResource(p, it);
          outcome, left := Finished, fuel - 2;
        }
      }
    }

    method DeleteRecorded(p: Project, fuel: nat) returns (outcome: Outcome, left: nat)
      requires Valid() && p in ledger && InStep(p)
      modifies this`world, this`ledger, this`log
      ensures Valid() && Confined(old(world), world, identity, p) && OnlyProject(old(ledger), ledger, p)
      ensures outcome != Refused && Ready(p)
      ensures outcome == Finished ==> InStep(p) && ledger[p] == {}
      ensures outcome == Crashed ==> left == 0 && Needed(p) > 0
      ensures left <= fuel && Needed(p) + fuel == left + old(Needed(p))
    {
      outcome, left := Finished, fuel;
      while outcome == Finished && ledger[p] != {}
        invariant Valid() && Confined(old(world), world, identity, p) && OnlyProject(old(ledger), ledger, p)
        invariant outcome != Refused && Ready(p) && (outcome == Finished ==> InStep(p))
        invariant outcome == Crashed ==> left == 0 && Needed(p) > 0
        invariant left <= fuel && Needed(p) + fuel == left + old(Needed(p))
        decreases outcome == Finished, Needed(p)
      {
        ghost var (w, l) := (world, ledger);
        outcome, left := DeleteNext(p, left);
        ConfinedChain(old(world), w, world, identity, p);
      }
    }

    // One cleanup that dies after `fuel` durable steps unless it is done by then. It refuses, changing
    // nothing, exactly when the labels disagree or something unrecorded exists; `discover` lets it record
    // what it finds if nothing is recorded yet.
    method CleanupProject(p: Project, discover: bool, fuel: nat) returns (outcome: Outcome, left: nat)
      requires Valid() && p in ledger
      modifies this`world, this`ledger, this`log
      ensures Valid()
      ensures Confined(old(world), world, identity, p) && OnlyProject(old(ledger), ledger, p)
      ensures outcome == Refused <==> !old(Ready(p) && (discover || Exact(world, identity, p) <= ledger[p]))
      ensures outcome == Refused <==>
                !(Sound(old(world), identity, p) &&
                  ((old(ledger)[p] == {} && discover)
                   || forall it :: it in old(world) && old(world)[it] == Labels(p, identity.owner) ==>
                                     it in old(ledger)[p]))
      ensures outcome == Refused ==> world == old(world) && ledger == old(ledger) && log == old(log) && left == fuel
      ensures outcome == Finished ==> Exact(world, identity, p) == {} && ledger[p] == {}
      ensures outcome == Crashed ==> left == 0 && Needed(p) > 0
      ensures outcome != Refused ==> Ready(p) && left <= fuel && Needed(p) + fuel == left + old(Needed(p))
    {
      outcome, left := Refused, fuel;
      var found := Discover(p);
      if found.None? {
        return;
      }
      if ledger[p] == {} && found.value != {} && discover {
        if left == 0 { return Crashed, 0; }
        RecordingIsOneStep(found.value);
        ReplaceProjectResources(p, found.value);
        left := left - 1;
      } else if found.value - ledger[p] != {} {
        return;
      }
      assert found.value <= ledger[p] by {
        assert forall it | it in found.value :: it in ledger[p] || it in found.value - ledger[p];
      }
      outcome, left := DropMissing(p, left);
      if outcome == Finished {
        outcome, left := DeleteRecorded(p, left);
        if outcome == Finished {
          var rest := Discover(p);
          if rest.None? || rest.value != {} {
            outcome := Refused;
          }
        }
      }
    }

    // The other project of the run is none of this cleanup's business.
    method CleanupOne(p: Project, other: Project, fuel: nat) returns (outcome: Outcome, left: nat)
      requires Valid() && {p, other} == {identity.main, identity.restore}
      requires Ready(p) && Ready(other)
      modifies this`world, this`ledger, this`log
      ensures Valid() && outcome != Refused && Ready(p) && Ready(other)
      ensures Needed(other) == old(Needed(other))
      ensures left <= fuel && Needed(p) + fuel == left + old(Needed(p))
      ensures if outcome == Finished then Needed(p) == 0 else left == 0 && Needed(p) > 0
    {
      assert p != other;
      outcome, left := CleanupProject(p, true, fuel);
      OtherProjectKept(old(world), world, ledger[other], identity, p, other);
    }

    // The restore project first, then the main one.
    method CleanupBoth(fuel: nat) returns (outcome: Outcome, left: nat)
      requires Valid() && Ready(identity.restore) && Ready(identity.main)
      modifies this`world, this`ledger, this`log
      ensures Valid() && outcome != Refused && Ready(identity.restore) && Ready(identity.main)
      ensures left <= fuel
      ensures Needed(identity.restore) + Needed(identity.main) + fuel
              == left + old(Needed(identity.restore)) + old(Needed(identity.main))
      ensures outcome == Crashed ==> left == 0 && Needed(identity.restore) + Needed(identity.main) > 0
      ensures outcome == Finished ==> Needed(identity.restore) == Needed(identity.main) == 0
    {
      outcome, left := CleanupOne(identity.restore, identity.main, fuel);
      if outcome == Finished {
        outcome, left := CleanupOne(identity.main, identity.restore, left);
      }
    }

    // The recorded temporary files, each deleted if it is still there and then dropped from the ledger.
    method CleanupArtifacts(fuel: nat) returns (outcome: Outcome, left: nat)
      requires ArtifactsOk()
      modifies this`artifacts, this`disk
      ensures ArtifactsOk() && outcome != Refused
      ensures left <= fuel && ArtifactSteps() + fuel == left + old(ArtifactSteps())
      ensures if outcome == Finished then artifacts == {} else left == 0 && ArtifactSteps() > 0
    {
      left := fuel;
      while artifacts != {}
        invariant ArtifactsOk() && left <= fuel && ArtifactSteps() + fuel == left + old(ArtifactSteps())
        decreases |artifacts|
      {
        var a :| a in artifacts;
        if left == 0 { return Crashed, 0; }
        if a in disk {
          assert artifacts * (disk - {a}) == artifacts * disk - {a};
          disk := disk - {a};
          left := left - 1;
          if left == 0 { return Crashed, 0; }
        }
        assert (artifacts - {a}) * disk == artifacts * disk;
        artifacts := artifacts - {a};
        left := left - 1;
      }
      return Finished, left;
    }

    method CleanupEverything(fuel: nat) returns (outcome: Outcome, left: nat)
      requires Valid() && ArtifactsOk() && Ready(identity.restore) && Ready(identity.main)
      modifies this`world, this`ledger, this`log, this`artifacts, this`disk
      ensures Valid() && ArtifactsOk() && outcome != Refused && Ready(identity.restore) && Ready(identity.main)
      ensures left <= fuel && Remaining() + fuel == left + old(Remaining())
      ensures if outcome == Finished then Remaining() == 0 else left == 0 && Remaining() > 0
    {
      outcome, left := CleanupBoth(fuel);
      if outcome == Finished {
        outcome, left := CleanupArtifacts(left);
      }
    }

    // One run of the recovery command. The file itself goes last, and only once it owns nothing.
    method RecoverFromLedger(fuel: nat) returns (outcome: Outcome)
      requires Valid() && ArtifactsOk() && ledgerFile && Ready(identity.restore) && Ready(identity.main)
      modifies this`world, this`ledger, this`ledgerFile, this`log, this`artifacts, this`disk
      ensures Valid() && ArtifactsOk() && outcome != Refused && Ready(identity.restore) && Ready(identity.main)
      ensures outcome == Finished <==> !ledgerFile
      ensures outcome == Finished <==> fuel >= old(Work())
      ensures Work() == if outcome == Finished then 0 else old(Work()) - fuel
    {
      var left;
      outcome, left := CleanupEverything(fuel);
      if outcome == Finished {
        if left == 0 || ledger[identity.restore] + ledger[identity.main] != {} || artifacts != {} {
          outcome := Crashed;
        } else {
          ledgerFile := false;
        }
      }
    }

    // The command is run again after every crash, dying after fuels[i] durable steps the i-th time.
    method RecoverRepeatedly(fuels: seq<nat>) returns (outcome: Outcome)
      requires Valid() && ArtifactsOk() && ledgerFile && world == original
      requires Ready(identity.restore) && Ready(identity.main)
      modifies this`world, this`ledger, this`ledgerFile, this`log, this`artifacts, this`disk
      ensures Valid() && ArtifactsOk() && outcome != Refused
      ensures outcome == Finished <==> !ledgerFile
      ensures outcome == Finished <==> Sum(fuels) >= old(Work())
      ensures outcome == Finished ==> Work() == 0 && DeletedExactly(log, original, identity)
      ensures outcome == Finished ==> disk == originalDisk - owned
    {
      outcome := Crashed;
      var i := 0;
      while i < |fuels| && outcome != Finished
        invariant 0 <= i <= |fuels|
        invariant Valid() && ArtifactsOk() && outcome != Refused && (outcome == Finished <==> !ledgerFile)
        invariant Ready(identity.restore) && Ready(identity.main)
        invariant if outcome == Finished then Work() == 0 else Work() + Sum(fuels[..i]) == old(Work())
        invariant outcome == Finished ==> Sum(fuels[..i]) >= old(Work())
      {
        SumNext(fuels, i);
        outcome := RecoverFromLedger(fuels[i]);
        i := i + 1;
      }
      SumOfPrefix(fuels, i);
      if outcome == Finished {
        AllDeleted();
      }
    }

    // Once no work is left, everything that carried the run's label is gone.
    lemma AllDeleted()
      requires Valid() && Ready(identity.restore) && Ready(identity.main) && Work() == 0
      ensures DeletedExactly(log, original, identity)
    {
      forall it | it in world
        ensures world[it].owner != identity.owner
      {
        assert it !in Exact(world, identity, world[it].project);
      }
    }
  }
}
