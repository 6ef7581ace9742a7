/** Admission bounds of the login limiter over whole runs: what each stage lets through, although the
    global window gates the other stages and empty subject buckets are deleted. */
module LoginRuns {
  import opened Prelude
  import opened SlidingWindow
  import opened LoginLimiter

  function Times(calls: seq<Call>): seq<real> {
    seq(|calls|, i requires 0 <= i < |calls| => calls[i].now)
  }

  // The limiter after these calls, and the decision on one more.
  function After(c: Config, calls: seq<Call>): State
    requires ValidConfig(c)
  {
    if calls == [] then State([], [], map[])
    else
      var n := |calls| - 1;
      Consume(c, After(c, calls[..n]), calls[n].subject, calls[n].now).0
  }

  function DecisionOn(c: Config, calls: seq<Call>, call: Call): Option<Decision>
    requires ValidConfig(c)
  {
    Consume(c, After(c, calls), call.subject, call.now).1
  }

  datatype Stage = AnyCall | MalformedCall | CallOf(key: string)

  // The call gets as far as the stage's window.
  predicate Reaches(d: Option<Decision>, call: Call, stage: Stage) {
    match stage
    case AnyCall => true
    case MalformedCall => call.subject.None? && (d.None? || d.value.scope != Global)
    case CallOf(key) => call.subject == Some(key) && (d.None? || d.value.scope == Subject)
  }

  // And the stage's window admits it.
  predicate Passes(d: Option<Decision>, call: Call, stage: Stage) {
    Reaches(d, call, stage) && (d.None? || (stage.AnyCall? && d.value.scope != Global))
  }

  // The clock readings of the calls that reach a stage, and of those that pass it.
  function Reached(c: Config, calls: seq<Call>, stage: Stage): seq<real>
    requires ValidConfig(c)
  {
    if calls == [] then []
    else
      var n := |calls| - 1;
      Reached(c, calls[..n], stage)
      + (if Reaches(DecisionOn(c, calls[..n], calls[n]), calls[n], stage) then [calls[n].now] else [])
  }

  function Passed(c: Config, calls: seq<Call>, stage: Stage): seq<real>
    requires ValidConfig(c)
  {
    if calls == [] then []
    else
      var n := |calls| - 1;
      Passed(c, calls[..n], stage)
      + (if Passes(DecisionOn(c, calls[..n], calls[n]), calls[n], stage) then [calls[n].now] else [])
  }

  function LimitOf(c: Config, stage: Stage): nat {
    match stage
    case AnyCall => c.globalLimit
    case MalformedCall => c.malformedLimit
    case CallOf(_) => c.subjectLimit
  }

  function WindowOf(c: Config, stage: Stage): nat {
    match stage
    case AnyCall => c.globalWindow
    case MalformedCall => c.malformedWindow
    case CallOf(_) => c.subjectWindow
  }

  function QueueOf(s: State, stage: Stage): seq<real> {
    match stage
    case AnyCall => s.globalQ
    case MalformedCall => s.malformedQ
    case CallOf(key) => Bucket(s.subjects, key)
  }

  // Two deques that no request from instant `now` on can tell apart.
  ghost predicate SameFrom(q: seq<real>, r: seq<real>, window: nat, now: real) {
    forall cutoff :: now - window as real <= cutoff ==> PopExpired(q, cutoff) == PopExpired(r, cutoff)
  }

  predicate InOrder(calls: seq<Call>) {
    forall i, j :: 0 <= i < j < |calls| ==> calls[i].now <= calls[j].now
  }

  lemma {:induction false} ReachedInOrder(c: Config, calls: seq<Call>, stage: Stage, hi: real)
    requires ValidConfig(c) && InOrder(calls) && forall i :: 0 <= i < |calls| ==> calls[i].now <= hi
    ensures Sorted(Reached(c, calls, stage)) && Bounded(Reached(c, calls, stage), hi)
  {
    if calls != [] {
      ReachedInOrder(c, calls[..|calls| - 1], stage, calls[|calls| - 1].now);
    }
  }

  // One call does to a stage's deque what a window of its own would do, if it gets there; otherwise
  // nothing that a later request could notice.
  lemma StageStep(c: Config, s: State, call: Call, stage: Stage)
    requires ValidConfig(c)
    ensures var (s', d) := Consume(c, s, call.subject, call.now);
            if Reaches(d, call, stage)
            then
              var (q', retry) := Consumed(QueueOf(s, stage), call.now, LimitOf(c, stage), WindowOf(c, stage));
              QueueOf(s', stage) == q' && (Passes(d, call, stage) <==> retry.None?)
            else SameFrom(QueueOf(s', stage), QueueOf(s, stage), WindowOf(c, stage), call.now)
  {
    match stage
    case AnyCall =>
    case MalformedCall =>
    case CallOf(key) => SubjectStep(c, s, call, key);
  }

  lemma SubjectStep(c: Config, s: State, call: Call, key: string)
    requires ValidConfig(c)
    ensures var (s', d) := Consume(c, s, call.subject, call.now);
            if Reaches(d, call, CallOf(key))
            then
              var (q', retry) := Consumed(Bucket(s.subjects, key), call.now, c.subjectLimit, c.subjectWindow);
              Bucket(s'.subjects, key) == q' && (d.None? <==> retry.None?)
            else SameFrom(Bucket(s'.subjects, key), Bucket(s.subjects, key), c.subjectWindow, call.now)
  {
    var cutoff := call.now - c.subjectWindow as real;
    var live := Cleaned(s.subjects, cutoff);
    var q := Bucket(s.subjects, key);
    assert Bucket(live, key) == PopExpired(q, cutoff);
    PopTwice(q, cutoff, cutoff);
    forall later | cutoff <= later
      ensures PopExpired(Bucket(live, key), later) == PopExpired(q, later)
    {
      PopTwice(q, cutoff, later);
    }
  }

  lemma ConsumedSame(q: seq<real>, r: seq<real>, now: real, limit: nat, window: nat)
    requires 1 <= limit && SameFrom(q, r, window, now)
    ensures Consumed(q, now, limit, window) == Consumed(r, now, limit, window)
  {
  }

  lemma SameLater(q: seq<real>, r: seq<real>, window: nat, now: real, later: real)
    requires SameFrom(q, r, window, now) && now <= later
    ensures SameFrom(q, r, window, later)
  {
  }

  lemma SameTransitive(p: seq<real>, q: seq<real>, r: seq<real>, window: nat, now: real)
    requires SameFrom(p, q, window, now) && SameFrom(q, r, window, now)
    ensures SameFrom(p, r, window, now)
  {
  }

  // The stage's window on its own: the deque and the admitted instants.
  function AloneRun(c: Config, calls: seq<Call>, stage: Stage): (seq<real>, seq<real>)
    requires ValidConfig(c)
  {
    Run(Reached(c, calls, stage), LimitOf(c, stage), WindowOf(c, stage))
  }

  ghost predicate Matches(c: Config, calls: seq<Call>, stage: Stage, now: real)
    requires ValidConfig(c)
  {
    && Passed(c, calls, stage) == AloneRun(c, calls, stage).1
    && SameFrom(QueueOf(After(c, calls), stage), AloneRun(c, calls, stage).0, WindowOf(c, stage), now)
  }

  lemma NextCall(c: Config, calls: seq<Call>, call: Call, stage: Stage)
    requires ValidConfig(c) && Matches(c, calls, stage, call.now)
    ensures Matches(c, calls + [call], stage, call.now)
  {
    var (limit, window) := (LimitOf(c, stage), WindowOf(c, stage));
    var (s, reached) := (After(c, calls), Reached(c, calls, stage));
    var q := Run(reached, limit, window).0;
    Unfold(c, calls, call, stage);
    StageStep(c, s, call, stage);
    if Reaches(DecisionOn(c, calls, call), call, stage) {
      ConsumedSame(QueueOf(s, stage), q, call.now, limit, window);
      RunStep(reached, call.now, limit, window);
    } else {
      SameTransitive(QueueOf(After(c, calls + [call]), stage), QueueOf(s, stage), q, window, call.now);
    }
  }

  lemma Unfold(c: Config, calls: seq<Call>, call: Call, stage: Stage)
    requires ValidConfig(c)
    ensures After(c, calls + [call]) == Consume(c, After(c, calls), call.subject, call.now).0
    ensures var d := DecisionOn(c, calls, call);
            && Reached(c, calls + [call], stage)
               == (if Reaches(d, call, stage) then Reached(c, calls, stage) + [call.now] else Reached(c, calls, stage))
            && Passed(c, calls + [call], stage)
               == (if Passes(d, call, stage) then Passed(c, calls, stage) + [call.now] else Passed(c, calls, stage))
  {
    assert (calls + [call])[..|calls|] == calls && (calls + [call])[|calls|] == call;
  }

  // Each stage, looked at alone, is one sliding window over the calls that reach it.
  lemma {:induction false} StageIsAWindow(c: Config, calls: seq<Call>, stage: Stage, now: real)
    requires ValidConfig(c) && InOrder(calls) && forall i :: 0 <= i < |calls| ==> calls[i].now <= now
    ensures Matches(c, calls, stage, now)
  {
    if calls != [] {
      var n := |calls| - 1;
      var (before, call) := (calls[..n], calls[n]);
      StageIsAWindow(c, before, stage, call.now);
      NextCall(c, before, call, stage);
      assert before + [call] == calls;
      SameLater(QueueOf(After(c, calls), stage), AloneRun(c, calls, stage).0, WindowOf(c, stage), call.now, now);
    }
  }

  // In clock order, capacity refusals and evictions included: every global window holds at most
  // `globalLimit` calls that pass it, every malformed window at most `malformedLimit` admissions, and
  // every window of each subject at most `subjectLimit` admissions.
  lemma AdmissionsAreBounded(c: Config, calls: seq<Call>, stage: Stage, hi: real)
    requires ValidConfig(c) && InOrder(calls)
    ensures |Within(Passed(c, calls, stage), hi - WindowOf(c, stage) as real, hi)| <= LimitOf(c, stage)
  {
    var now := if calls == [] then 0.0 else calls[|calls| - 1].now;
    StageIsAWindow(c, calls, stage, now);
    ReachedInOrder(c, calls, stage, now);
    EveryWindowIsBounded(Reached(c, calls, stage), LimitOf(c, stage), WindowOf(c, stage), hi);
  }

  // A call is admitted exactly when, at its instant, every stage it reaches has room in its window, and
  // a new subject finds a free bucket.
  lemma AdmissionMeans(c: Config, calls: seq<Call>, call: Call)
    requires ValidConfig(c) && InOrder(calls + [call])
    ensures var d := DecisionOn(c, calls, call);
            && (d.Some? && d.value.scope == Global <==> Full(c, calls, AnyCall, call.now))
            && (call.subject.None? && !Full(c, calls, AnyCall, call.now) ==>
                  (d.None? <==> !Full(c, calls, MalformedCall, call.now)))
            && (call.subject.Some? && !Full(c, calls, AnyCall, call.now) && (d.None? || d.value.scope != Capacity) ==>
                  (d.None? <==> !Full(c, calls, CallOf(call.subject.value), call.now)))
  {
    var s := After(c, calls);
    assert forall i :: 0 <= i < |calls| ==> (calls + [call])[i] == calls[i];
    assert (calls + [call])[|calls|] == call;
    StageRoom(c, calls, AnyCall, call.now);
    if call.subject.None? {
      StageRoom(c, calls, MalformedCall, call.now);
    } else {
      StageRoom(c, calls, CallOf(call.subject.value), call.now);
      SubjectStep(c, s, call, call.subject.value);
    }
  }

  predicate Full(c: Config, calls: seq<Call>, stage: Stage, now: real)
    requires ValidConfig(c)
  {
    InWindow(Passed(c, calls, stage), WindowOf(c, stage), now) >= LimitOf(c, stage)
  }

  function InWindow(log: seq<real>, window: nat, now: real): nat {
    |Within(log, now - window as real, now)|
  }

  lemma StageRoom(c: Config, calls: seq<Call>, stage: Stage, now: real)
    requires ValidConfig(c) && InOrder(calls) && forall i :: 0 <= i < |calls| ==> calls[i].now <= now
    ensures Consumed(QueueOf(After(c, calls), stage), now, LimitOf(c, stage), WindowOf(c, stage)).1.None?
            <==> !Full(c, calls, stage, now)
  {
    var (limit, window) := (LimitOf(c, stage), WindowOf(c, stage));
    var (q, reached, passed) := (QueueOf(After(c, calls), stage), Reached(c, calls, stage), Passed(c, calls, stage));
    assert 1 <= limit && passed == AloneRun(c, calls, stage).1 && Sorted(reached) && Bounded(reached, now)
           && SameFrom(q, AloneRun(c, calls, stage).0, window, now) by {
      StageIsAWindow(c, calls, stage, now);
      ReachedInOrder(c, calls, stage, now);
    }
    RoomInWindow(reached, passed, AloneRun(c, calls, stage), q, now, limit, window);
  }

  lemma RoomInWindow(
    reached: seq<real>, passed: seq<real>, run: (seq<real>, seq<real>), q: seq<real>,
    now: real, limit: nat, window: nat)
    requires 1 <= limit && Sorted(reached) && Bounded(reached, now)
    requires run == Run(reached, limit, window) && passed == run.1 && SameFrom(q, run.0, window, now)
    ensures Consumed(q, now, limit, window).1.None? <==> InWindow(passed, window, now) < limit
  {
    ConsumedSame(q, run.0, now, limit, window);
    AdmittedExactly(reached, now, limit, window);
  }

  // ---------------------------------------------------------------- capacity

  function SubjectsOf(calls: seq<Call>): set<string> {
    set i | 0 <= i < |calls| && calls[i].subject.Some? :: calls[i].subject.value
  }

  // The subjects with an admission in their window.
  function LiveSubjects(c: Config, calls: seq<Call>, now: real): set<string>
    requires ValidConfig(c)
  {
    set key | key in SubjectsOf(calls) && InWindow(Passed(c, calls, CallOf(key)), c.subjectWindow, now) > 0
  }

  lemma {:induction false} StrangersPassNothing(c: Config, calls: seq<Call>, key: string)
    requires ValidConfig(c) && key !in SubjectsOf(calls)
    ensures Passed(c, calls, CallOf(key)) == []
  {
    if calls != [] {
      var n := |calls| - 1;
      assert forall i :: 0 <= i < n ==> calls[..n][i] == calls[i];
      assert calls[n].subject == Some(key) ==> key in SubjectsOf(calls);
      assert forall k :: k in SubjectsOf(calls[..n]) ==> k in SubjectsOf(calls);
      StrangersPassNothing(c, calls[..n], key);
    }
  }

  // What is left of a subject's bucket is what was admitted in its window.
  lemma BucketIsWindow(c: Config, calls: seq<Call>, key: string, now: real)
    requires ValidConfig(c) && InOrder(calls) && forall i :: 0 <= i < |calls| ==> calls[i].now <= now
    ensures |PopExpired(Bucket(After(c, calls).subjects, key), now - c.subjectWindow as real)|
            == InWindow(Passed(c, calls, CallOf(key)), c.subjectWindow, now)
  {
    var stage := CallOf(key);
    StageIsAWindow(c, calls, stage, now);
    ReachedInOrder(c, calls, stage, now);
    PoppedIsWindow(Reached(c, calls, stage), AloneRun(c, calls, stage), QueueOf(After(c, calls), stage), now,
                   c.subjectLimit, c.subjectWindow);
  }

  // The bucket of a subject is live exactly when it has an admission in its window.
  lemma LiveBucket(c: Config, calls: seq<Call>, key: string, now: real)
    requires ValidConfig(c) && InOrder(calls) && forall i :: 0 <= i < |calls| ==> calls[i].now <= now
    ensures PopExpired(Bucket(After(c, calls).subjects, key), now - c.subjectWindow as real) != []
            <==> key in LiveSubjects(c, calls, now)
  {
    BucketIsWindow(c, calls, key, now);
    if key !in SubjectsOf(calls) {
      NotInWindow(c, calls, key, now);
    }
  }

  lemma NotInWindow(c: Config, calls: seq<Call>, key: string, now: real)
    requires ValidConfig(c) && key !in SubjectsOf(calls)
    ensures InWindow(Passed(c, calls, CallOf(key)), c.subjectWindow, now) == 0
  {
    StrangersPassNothing(c, calls, key);
  }

  lemma PoppedIsWindow(
    reached: seq<real>, run: (seq<real>, seq<real>), q: seq<real>, now: real, limit: nat, window: nat)
    requires 1 <= limit && Sorted(reached) && Bounded(reached, now)
    requires run == Run(reached, limit, window) && SameFrom(q, run.0, window, now)
    ensures PopExpired(q, now - window as real) == Within(run.1, now - window as real, now)
  {
    AdmittedExactly(reached, now, limit, window);
  }

  lemma CleanedAreLive(c: Config, calls: seq<Call>, now: real)
    requires ValidConfig(c) && InOrder(calls) && forall i :: 0 <= i < |calls| ==> calls[i].now <= now
    ensures Cleaned(After(c, calls).subjects, now - c.subjectWindow as real).Keys == LiveSubjects(c, calls, now)
  {
    var live := Cleaned(After(c, calls).subjects, now - c.subjectWindow as real);
    forall key
      ensures key in live <==> key in LiveSubjects(c, calls, now)
    {
      LiveBucket(c, calls, key, now);
    }
  }

  lemma CapacityStep(c: Config, s: State, call: Call)
    requires ValidConfig(c)
    ensures var d := Consume(c, s, call.subject, call.now).1;
            var live := Cleaned(s.subjects, call.now - c.subjectWindow as real);
            d.Some? && d.value.scope == Capacity
            <==> && Consumed(s.globalQ, call.now, c.globalLimit, c.globalWindow).1.None? && call.subject.Some?
                 && call.subject.value !in live && |live| >= c.maxSubjects
  {
  }

  lemma OneMoreCall(calls: seq<Call>, call: Call)
    requires InOrder(calls + [call])
    ensures InOrder(calls) && forall i :: 0 <= i < |calls| ==> calls[i].now <= call.now
    ensures forall i :: 0 <= i < |calls + [call]| ==> (calls + [call])[i].now <= call.now
  {
    assert forall i :: 0 <= i < |calls| ==> (calls + [call])[i] == calls[i];
    assert (calls + [call])[|calls|] == call;
  }

  // A call is refused for capacity exactly when the global window has room, the credential is well formed,
  // its subject has no admission in its window, and as many others as there are buckets have one.
  lemma CapacityMeans(c: Config, calls: seq<Call>, call: Call)
    requires ValidConfig(c) && InOrder(calls + [call])
    ensures var d := DecisionOn(c, calls, call); var live := LiveSubjects(c, calls, call.now);
            d.Some? && d.value.scope == Capacity
            <==> && !Full(c, calls, AnyCall, call.now) && call.subject.Some? && call.subject.value !in live
                 && |live| >= c.maxSubjects
  {
    OneMoreCall(calls, call);
    StageRoom(c, calls, AnyCall, call.now);
    CleanedAreLive(c, calls, call.now);
    CapacityStep(c, After(c, calls), call);
    var live := Cleaned(After(c, calls).subjects, call.now - c.subjectWindow as real);
    assert |live| == |live.Keys|;
  }

  // The delay given with such a refusal is one subject window, and it suffices: after it, with no other
  // call in between, every bucket is free again and the subject's window has room, so only the global
  // window can still refuse the call.
  lemma CapacityDelaySuffices(c: Config, calls: seq<Call>, call: Call)
    requires ValidConfig(c) && InOrder(calls + [call])
    requires var d := DecisionOn(c, calls, call); d.Some? && d.value.scope == Capacity
    ensures DecisionOn(c, calls, call).value.retryAfter == c.subjectWindow
    ensures var later := Call(call.subject, call.now + c.subjectWindow as real);
            var d := DecisionOn(c, calls + [call], later);
            d.None? || d.value.scope == Global
  {
    var s := After(c, calls + [call]);
    OneMoreCall(calls, call);
    NothingLive(c, calls + [call], call.now);
    FreeAgain(c, s, call.subject, call.now + c.subjectWindow as real);
  }

  lemma FreeAgain(c: Config, s: State, subject: Option<string>, now: real)
    requires ValidConfig(c) && subject.Some? && Cleaned(s.subjects, now - c.subjectWindow as real) == map[]
    ensures var d := Consume(c, s, subject, now).1; d.None? || d.value.scope == Global
  {
  }

  lemma NothingLive(c: Config, calls: seq<Call>, now: real)
    requires ValidConfig(c) && InOrder(calls) && forall i :: 0 <= i < |calls| ==> calls[i].now <= now
    ensures Cleaned(After(c, calls).subjects, now) == map[]
  {
    var subjects := After(c, calls).subjects;
    forall key | key in subjects
      ensures PopExpired(subjects[key], now) == []
    {
      StageIsAWindow(c, calls, CallOf(key), now);
      ReachedInOrder(c, calls, CallOf(key), now);
      OldRunIsPopped(Reached(c, calls, CallOf(key)), c.subjectLimit, c.subjectWindow, now);
      PopsAlike(QueueOf(After(c, calls), CallOf(key)), AloneRun(c, calls, CallOf(key)).0, c.subjectWindow, now);
    }
  }

  lemma PopsAlike(q: seq<real>, r: seq<real>, window: nat, now: real)
    requires SameFrom(q, r, window, now)
    ensures PopExpired(q, now) == PopExpired(r, now)
  {
    assert now - window as real <= now;
  }

  // At a cutoff that no reading is past, nothing is left.
  lemma OldRunIsPopped(calls: seq<real>, limit: nat, window: nat, cutoff: real)
    requires 1 <= limit && Sorted(calls) && Bounded(calls, cutoff)
    ensures PopExpired(Run(calls, limit, window).0, cutoff) == []
  {
    QueueIsBounded(calls, limit, window, cutoff);
    PopSuffix(Run(calls, limit, window).0, cutoff);
  }

  lemma {:induction false} QueueIsBounded(calls: seq<real>, limit: nat, window: nat, hi: real)
    requires 1 <= limit && Bounded(calls, hi)
    ensures Bounded(Run(calls, limit, window).0, hi)
  {
    if calls != [] {
      var n := |calls| - 1;
      QueueIsBounded(calls[..n], limit, window, hi);
      PopSuffix(Run(calls[..n], limit, window).0, calls[n] - window as real);
    }
  }
}
