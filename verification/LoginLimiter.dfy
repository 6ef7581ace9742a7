/** The login limiter: one global window, one for malformed credentials, and a bounded number of
    per-subject windows that are deleted as soon as they are empty. The keyed digest of a credential's
    public id is taken to be injective, so the id itself is the bucket key. */
module LoginLimiter {
  import opened Prelude
  import opened SlidingWindow

  datatype Config = Config(globalLimit: nat, globalWindow: nat, subjectLimit: nat, subjectWindow: nat,
                           malformedLimit: nat, malformedWindow: nat, maxSubjects: nat)

  // Validated when a limiter is constructed.
  predicate ValidConfig(c: Config) {
    && c.globalLimit > 0 && c.globalWindow > 0 && c.subjectLimit > 0 && c.subjectWindow > 0
    && c.malformedLimit > 0 && c.malformedWindow > 0 && c.maxSubjects > 0
  }

  datatype Scope = Global | MalformedScope | Capacity | Subject

  datatype Decision = Decision(retryAfter: int, scope: Scope)

  datatype State = State(globalQ: seq<real>, malformedQ: seq<real>, subjects: map<string, seq<real>>)

  function Bucket(m: map<string, seq<real>>, key: string): seq<real> {
    if key in m then m[key] else []
  }

  // All buckets popped, and the empty ones deleted.
  function Cleaned(m: map<string, seq<real>>, cutoff: real): map<string, seq<real>> {
    map key | key in m && PopExpired(m[key], cutoff) != [] :: PopExpired(m[key], cutoff)
  }

  // The same without the buckets still to do.
  function CleanedBut(m: map<string, seq<real>>, todo: set<string>, cutoff: real): map<string, seq<real>> {
    map key | key in m && key !in todo && PopExpired(m[key], cutoff) != [] :: PopExpired(m[key], cutoff)
  }

  lemma CleanOne(m: map<string, seq<real>>, todo: set<string>, key: string, cutoff: real)
    requires key in m && key in todo
    ensures CleanedBut(m, todo - {key}, cutoff)
            == if PopExpired(m[key], cutoff) == [] then CleanedBut(m, todo, cutoff)
               else CleanedBut(m, todo, cutoff)[key := PopExpired(m[key], cutoff)]
  {
  }

  // `subject` is None for a malformed credential.
  function Consume(c: Config, s: State, subject: Option<string>, now: real): (State, Option<Decision>)
    requires ValidConfig(c)
  {
    var (g, globalRetry) := Consumed(s.globalQ, now, c.globalLimit, c.globalWindow);
    if globalRetry.Some? then (s.(globalQ := g), Some(Decision(globalRetry.value, Global)))
    else if subject.None? then
      var (m, retry) := Consumed(s.malformedQ, now, c.malformedLimit, c.malformedWindow);
      (s.(globalQ := g, malformedQ := m), if retry.None? then None else Some(Decision(retry.value, MalformedScope)))
    else
      var live := Cleaned(s.subjects, now - c.subjectWindow as real);
      var (subjects, decision) := SubjectConsumed(c, live, subject.value, now);
      (s.(globalQ := g, subjects := subjects), decision)
  }

  // The live buckets after a request of this subject.
  function SubjectConsumed(c: Config, live: map<string, seq<real>>, key: string, now: real)
    : (map<string, seq<real>>, Option<Decision>)
    requires ValidConfig(c)
  {
    if key !in live && |live| >= c.maxSubjects then (live, Some(Decision(c.subjectWindow, Capacity)))
    else
      var (q, retry) := Consumed(Bucket(live, key), now, c.subjectLimit, c.subjectWindow);
      (live[key := q], if retry.None? then None else Some(Decision(retry.value, Subject)))
  }

  // ---------------------------------------------------------------- what a login attempt means

  // Exactly the subjects with an entry inside the window are left, without their leading expired entries.
  ghost predicate CleanedMeans(m: map<string, seq<real>>, live: map<string, seq<real>>, cutoff: real) {
    forall key :: KeptOrGone(m, live, key, cutoff)
  }

  ghost predicate KeptOrGone(m: map<string, seq<real>>, live: map<string, seq<real>>, key: string, cutoff: real) {
    && (key in live <==> key in m && exists t :: t in m[key] && t > cutoff)
    && (key in live ==> Popped(m[key], live[key], cutoff))
  }

  lemma {:induction false} PopLeavesLater(q: seq<real>, cutoff: real)
    ensures PopExpired(q, cutoff) != [] <==> exists t :: t in q && t > cutoff
  {
    if q != [] {
      if q[0] <= cutoff {
        PopLeavesLater(q[1..], cutoff);
        assert forall t :: t in q <==> t == q[0] || t in q[1..];
      } else {
        assert q[0] in q;
      }
    }
  }

  lemma CleanedIsMeant(m: map<string, seq<real>>, cutoff: real)
    ensures CleanedMeans(m, Cleaned(m, cutoff), cutoff)
  {
    forall key | key in m
      ensures PopExpired(m[key], cutoff) != [] <==> exists t :: t in m[key] && t > cutoff
      ensures Popped(m[key], PopExpired(m[key], cutoff), cutoff)
    {
      PopLeavesLater(m[key], cutoff);
      PopExpiredMeans(m[key], cutoff);
    }
  }

  // One window decides, and its delay is the answer.
  ghost predicate Stage(
    q: seq<real>, q': seq<real>, now: real, limit: nat, window: nat, d: Option<Decision>, scope: Scope)
  {
    match d
    case None => WindowMeans(q, q', now, limit, window, None)
    case Some(Decision(delay, s)) => s == scope && WindowMeans(q, q', now, limit, window, Some(delay))
  }

  // The subject's own window, unless there is no room for one more subject.
  ghost predicate SubjectMeans(
    c: Config, live: map<string, seq<real>>, after: map<string, seq<real>>, key: string, now: real, d: Option<Decision>)
  {
    if key !in live && |live| >= c.maxSubjects then
      after == live && d.Some? && d.value.scope == Capacity && d.value.retryAfter == c.subjectWindow
    else
      && after.Keys == live.Keys + {key}
      && (forall other :: other in live && other != key ==> after[other] == live[other])
      && Stage(if key in live then live[key] else [], after[key], now, c.subjectLimit, c.subjectWindow, d, Subject)
  }

  ghost predicate AfterCleaning(
    c: Config, m: map<string, seq<real>>, after: map<string, seq<real>>, key: string, now: real, d: Option<Decision>)
  {
    exists live | CleanedMeans(m, live, now - c.subjectWindow as real) :: SubjectMeans(c, live, after, key, now, d)
  }

  // First the global window, then that of malformed credentials or that of the subject.
  ghost predicate AttemptMeans(
    c: Config, s: State, s': State, subject: Option<string>, now: real, d: Option<Decision>)
  {
    if d.Some? && d.value.scope == Global then
      && Stage(s.globalQ, s'.globalQ, now, c.globalLimit, c.globalWindow, d, Global)
      && s'.malformedQ == s.malformedQ && s'.subjects == s.subjects
    else
      && Stage(s.globalQ, s'.globalQ, now, c.globalLimit, c.globalWindow, None, Global)
      && match subject
         case None =>
           && Stage(s.malformedQ, s'.malformedQ, now, c.malformedLimit, c.malformedWindow, d, MalformedScope)
           && s'.subjects == s.subjects
         case Some(key) =>
           && s'.malformedQ == s.malformedQ
           && AfterCleaning(c, s.subjects, s'.subjects, key, now, d)
  }

  lemma SubjectIsMeant(c: Config, live: map<string, seq<real>>, key: string, now: real)
    requires ValidConfig(c)
    ensures var (after, d) := SubjectConsumed(c, live, key, now); SubjectMeans(c, live, after, key, now, d)
  {
    ConsumedMeans(Bucket(live, key), now, c.subjectLimit, c.subjectWindow);
  }

  lemma CleanedFirst(c: Config, m: map<string, seq<real>>, live: map<string, seq<real>>, key: string, now: real)
    requires ValidConfig(c) && live == Cleaned(m, now - c.subjectWindow as real)
    ensures var (after, d) := SubjectConsumed(c, live, key, now); AfterCleaning(c, m, after, key, now, d)
  {
    CleanedIsMeant(m, now - c.subjectWindow as real);
    SubjectIsMeant(c, live, key, now);
  }

  lemma KnownSubjectIsMeant(c: Config, s: State, key: string, now: real)
    requires ValidConfig(c) && Consumed(s.globalQ, now, c.globalLimit, c.globalWindow).1.None?
    ensures var (s', d) := Consume(c, s, Some(key), now); AfterCleaning(c, s.subjects, s'.subjects, key, now, d)
  {
    CleanedFirst(c, s.subjects, Cleaned(s.subjects, now - c.subjectWindow as real), key, now);
  }

  lemma AttemptIsMeant(c: Config, s: State, subject: Option<string>, now: real)
    requires ValidConfig(c)
    ensures var (s', d) := Consume(c, s, subject, now); AttemptMeans(c, s, s', subject, now, d)
  {
    ConsumedMeans(s.globalQ, now, c.globalLimit, c.globalWindow);
    if subject.None? {
      ConsumedMeans(s.malformedQ, now, c.malformedLimit, c.malformedWindow);
    } else if Consumed(s.globalQ, now, c.globalLimit, c.globalWindow).1.None? {
      KnownSubjectIsMeant(c, s, subject.value, now);
    }
  }

  class LoginRateLimiter {
    const config: Config
    var state: State

    constructor (config: Config)
      requires ValidConfig(config)
      ensures this.config == config && state == State([], [], map[])
    {
      this.config, state := config, State([], [], map[]);
    }

    ghost predicate Valid()
      reads this
    {
      ValidConfig(config) && |state.subjects| <= config.maxSubjects
    }

    // Live subject buckets never exceed the maximum.
    method ConsumeCredential(subject: Option<string>, now: real) returns (decision: Option<Decision>)
      requires Valid()
      modifies this
      ensures Valid() && (state, decision) == Consume(config, old(state), subject, now)
      ensures AttemptMeans(config, old(state), state, subject, now, decision)
    {
      AttemptIsMeant(config, state, subject, now);
      decision := ConsumeLocked(subject, now);
    }

    // The part that runs under the lock.
    method ConsumeLocked(subject: Option<string>, now: real) returns (decision: Option<Decision>)
      requires Valid()
      modifies this
      ensures Valid() && (state, decision) == Consume(config, old(state), subject, now)
    {
      var (g, globalRetry) := Consumed(state.globalQ, now, config.globalLimit, config.globalWindow);
      state := state.(globalQ := g);
      if globalRetry.Some? {
        return Some(Decision(globalRetry.value, Global));
      }
      if subject.None? {
        var (m, retry) := Consumed(state.malformedQ, now, config.malformedLimit, config.malformedWindow);
        state := state.(malformedQ := m);
        return if retry.None? then None else Some(Decision(retry.value, MalformedScope));
      }
      CleanupSubjects(now);
      decision := ConsumeSubject(subject.value, now);
    }

    // The part that concerns one subject, after the cleanup.
    method ConsumeSubject(key: string, now: real) returns (decision: Option<Decision>)
      requires Valid()
      modifies this
      ensures Valid()
      ensures var (subjects, d) := SubjectConsumed(config, old(state).subjects, key, now);
              state == old(state).(subjects := subjects) && decision == d
    {
      var live := state.subjects;
      if key !in live && |live| >= config.maxSubjects {
        return Some(Decision(config.subjectWindow, Capacity));
      }
      var (q, retry) := Consumed(Bucket(live, key), now, config.subjectLimit, config.subjectWindow);
      assert live[key := q].Keys == live.Keys + {key};
      assert |live[key := q]| == |live.Keys + {key}| && |live| == |live.Keys|;
      state := state.(subjects := live[key := q]);
      return if retry.None? then None else Some(Decision(retry.value, Subject));
    }

    method PopFront(before: seq<real>, cutoff: real) returns (q: seq<real>)
      ensures q == PopExpired(before, cutoff)
    {
      q := before;
      while q != [] && q[0] <= cutoff
        invariant PopExpired(q, cutoff) == PopExpired(before, cutoff)
        decreases |q|
      {
        q := q[1..];
      }
    }

    method CleanupSubjects(now: real)
      requires Valid()
      modifies this
      ensures Valid()
      ensures state == old(state).(subjects := Cleaned(old(state).subjects, now - config.subjectWindow as real))
    {
      var cutoff := now - config.subjectWindow as real;
      var before := state.subjects;
      var todo := before.Keys;
      var live := map[];
      while todo != {}
        invariant todo <= before.Keys && state == old(state)
        invariant live == CleanedBut(before, todo, cutoff)
        decreases |todo|
      {
        var key :| key in todo;
        CleanOne(before, todo, key, cutoff);
        todo := todo - {key};
        var q := PopFront(before[key], cutoff);
        if q != [] {
          live := live[key := q];
        }
      }
      assert live == Cleaned(before, cutoff) && live.Keys <= before.Keys;
      SubsetSize(live.Keys, before.Keys);
      state := state.(subjects := live);
    }
  }

  // ---------------------------------------------------------------- eviction is invisible

  // The same limiter with room for every subject that never deletes a bucket.
  function ConsumeKeepingAll(c: Config, s: State, subject: Option<string>, now: real): (State, Option<Decision>)
    requires ValidConfig(c)
  {
    var (g, globalRetry) := Consumed(s.globalQ, now, c.globalLimit, c.globalWindow);
    if globalRetry.Some? then (s.(globalQ := g), Some(Decision(globalRetry.value, Global)))
    else if subject.None? then
      var (m, retry) := Consumed(s.malformedQ, now, c.malformedLimit, c.malformedWindow);
      (s.(globalQ := g, malformedQ := m), if retry.None? then None else Some(Decision(retry.value, MalformedScope)))
    else
      var (q, retry) := Consumed(Bucket(s.subjects, subject.value), now, c.subjectLimit, c.subjectWindow);
      (s.(globalQ := g, subjects := s.subjects[subject.value := q]),
       if retry.None? then None else Some(Decision(retry.value, Subject)))
  }

  // The two limiters cannot be told apart by any request from instant `now` on.
  ghost predicate Indistinguishable(c: Config, s: State, r: State, now: real) {
    && s.globalQ == r.globalQ && s.malformedQ == r.malformedQ
    && SameBuckets(s.subjects, r.subjects, now - c.subjectWindow as real)
  }

  lemma EvictionStep(c: Config, s: State, r: State, subject: Option<string>, from: real, now: real)
    requires ValidConfig(c) && Indistinguishable(c, s, r, from) && from <= now
    ensures var (s', d) := Consume(c, s, subject, now); var (r', e) := ConsumeKeepingAll(c, r, subject, now);
            d.None? || d.value.scope != Capacity ==> d == e && Indistinguishable(c, s', r', now)
  {
    var cutoff := now - c.subjectWindow as real;
    var live := Cleaned(s.subjects, cutoff);
    assert SameBuckets(s.subjects, r.subjects, cutoff) && SameBuckets(live, r.subjects, cutoff) by {
      CleaningIsInvisible(s.subjects, r.subjects, from - c.subjectWindow as real, cutoff);
    }
    match subject
    case None => WithoutSubject(c, s, r, now);
    case Some(key) => WithSubject(c, s, r, key, now);
  }

  lemma WithoutSubject(c: Config, s: State, r: State, now: real)
    requires ValidConfig(c) && s.globalQ == r.globalQ && s.malformedQ == r.malformedQ
    requires SameBuckets(s.subjects, r.subjects, now - c.subjectWindow as real)
    ensures var (s', d) := Consume(c, s, None, now); var (r', e) := ConsumeKeepingAll(c, r, None, now);
            d == e && Indistinguishable(c, s', r', now)
  {
  }

  lemma WithSubject(c: Config, s: State, r: State, key: string, now: real)
    requires ValidConfig(c) && s.globalQ == r.globalQ && s.malformedQ == r.malformedQ
    requires SameBuckets(s.subjects, r.subjects, now - c.subjectWindow as real)
    requires SameBuckets(Cleaned(s.subjects, now - c.subjectWindow as real), r.subjects, now - c.subjectWindow as real)
    ensures var (s', d) := Consume(c, s, Some(key), now); var (r', e) := ConsumeKeepingAll(c, r, Some(key), now);
            d.None? || d.value.scope != Capacity ==> d == e && Indistinguishable(c, s', r', now)
  {
    SubjectDecides(c, Cleaned(s.subjects, now - c.subjectWindow as real), r.subjects, key, now);
  }

  lemma CleaningIsInvisible(a: map<string, seq<real>>, b: map<string, seq<real>>, from: real, cutoff: real)
    requires SameBuckets(a, b, from) && from <= cutoff
    ensures SameBuckets(a, b, cutoff) && SameBuckets(Cleaned(a, cutoff), b, cutoff)
  {
    forall key
      ensures SamePops(Bucket(a, key), Bucket(b, key), cutoff)
      ensures SamePops(Bucket(Cleaned(a, cutoff), key), Bucket(b, key), cutoff)
    {
      assert SamePops(Bucket(a, key), Bucket(b, key), from);
      forall later | cutoff <= later
        ensures PopExpired(Bucket(Cleaned(a, cutoff), key), later) == PopExpired(Bucket(a, key), later)
      {
        PopTwice(Bucket(a, key), cutoff, later);
      }
    }
  }

  ghost predicate SameBuckets(a: map<string, seq<real>>, b: map<string, seq<real>>, from: real) {
    forall key :: SamePops(Bucket(a, key), Bucket(b, key), from)
  }

  ghost predicate SamePops(q: seq<real>, r: seq<real>, from: real) {
    forall cutoff :: from <= cutoff ==> PopExpired(q, cutoff) == PopExpired(r, cutoff)
  }

  lemma SubjectDecides(c: Config, a: map<string, seq<real>>, b: map<string, seq<real>>, key: string, now: real)
    requires ValidConfig(c) && SameBuckets(a, b, now - c.subjectWindow as real)
    ensures var (q, retry) := Consumed(Bucket(a, key), now, c.subjectLimit, c.subjectWindow);
            && (q, retry) == Consumed(Bucket(b, key), now, c.subjectLimit, c.subjectWindow)
            && SameBuckets(a[key := q], b[key := q], now - c.subjectWindow as real)
  {
    var q := Consumed(Bucket(a, key), now, c.subjectLimit, c.subjectWindow).0;
    assert SamePops(Bucket(a, key), Bucket(b, key), now - c.subjectWindow as real);
    var a', b' := a[key := q], b[key := q];
    forall other
      ensures SamePops(Bucket(a', other), Bucket(b', other), now - c.subjectWindow as real)
    {
      if other != key {
        assert Bucket(a', other) == Bucket(a, other) && Bucket(b', other) == Bucket(b, other);
      }
    }
  }

  datatype Call = Call(subject: Option<string>, now: real)

  // The states and decisions of both limiters over the same calls.
  ghost predicate Runs(c: Config, calls: seq<Call>, ss: seq<State>, rs: seq<State>,
                       ds: seq<Option<Decision>>, es: seq<Option<Decision>>)
    requires ValidConfig(c)
  {
    && |ss| == |rs| == |calls| + 1 && |ds| == |es| == |calls|
    && ss[0] == rs[0] == State([], [], map[])
    && (forall k {:trigger calls[k]} :: 0 <= k < |calls| ==>
          && (ss[k + 1], ds[k]) == Consume(c, ss[k], calls[k].subject, calls[k].now)
          && (rs[k + 1], es[k]) == ConsumeKeepingAll(c, rs[k], calls[k].subject, calls[k].now))
    && (forall j, k :: 0 <= j < k < |calls| ==> calls[j].now <= calls[k].now)
  }

  // As long as the capacity is never hit, deleting empty buckets gives the same decisions as never
  // deleting any.
  lemma {:induction false} EvictionIsInvisible(c: Config, calls: seq<Call>, ss: seq<State>, rs: seq<State>,
                                               ds: seq<Option<Decision>>, es: seq<Option<Decision>>, k: nat)
    requires ValidConfig(c) && Runs(c, calls, ss, rs, ds, es) && k < |calls|
    requires forall j :: 0 <= j <= k ==> ds[j].None? || ds[j].value.scope != Capacity
    ensures ds[k] == es[k] && Indistinguishable(c, ss[k + 1], rs[k + 1], calls[k].now)
  {
    if k > 0 {
      EvictionIsInvisible(c, calls, ss, rs, ds, es, k - 1);
    }
    var from := if k > 0 then calls[k - 1].now else calls[0].now;
    assert (ss[k + 1], ds[k]) == Consume(c, ss[k], calls[k].subject, calls[k].now);
    assert (rs[k + 1], es[k]) == ConsumeKeepingAll(c, rs[k], calls[k].subject, calls[k].now);
    EvictionStep(c, ss[k], rs[k], calls[k].subject, from, calls[k].now);
  }

  // A request is refused for capacity only while that many other subjects are inside their windows.
  lemma CapacityMeansFull(c: Config, s: State, subject: Option<string>, now: real)
    requires ValidConfig(c)
    ensures var (s', d) := Consume(c, s, subject, now);
            d.Some? && d.value.scope == Capacity ==>
              && |s'.subjects| >= c.maxSubjects && subject.value !in s'.subjects
              && forall key :: key in s'.subjects ==>
                   s'.subjects[key] != [] && s'.subjects[key][0] > now - c.subjectWindow as real
  {
    var live := Cleaned(s.subjects, now - c.subjectWindow as real);
    forall key | key in live
      ensures live[key][0] > now - c.subjectWindow as real
    {
      PopSuffix(s.subjects[key], now - c.subjectWindow as real);
    }
  }
}
