/** The sliding-window counter behind every process-local rate limiter. Instants are reals. */
module SlidingWindow {
  import opened Prelude

  // The least integer at or above x.
  function Ceiling(x: real): (c: int)
    ensures (c as real) - 1.0 < x <= c as real
  {
    -((-x).Floor)
  }

  // ---------------------------------------------------------------- the deque

  function PopExpired(q: seq<real>, cutoff: real): seq<real> {
    if q != [] && q[0] <= cutoff then PopExpired(q[1..], cutoff) else q
  }

  // The deque after one request, and the retry delay if it was turned away.
  function Consumed(q: seq<real>, now: real, limit: nat, window: nat): (seq<real>, Option<int>)
    requires 1 <= limit
  {
    var live := PopExpired(q, now - window as real);
    if |live| >= limit then
      var wait := Ceiling(live[0] + window as real - now);
      (live, Some(if wait > 1 then wait else 1))
    else (live + [now], None)
  }

  // The entries up to the first one after the cutoff are gone, and the others are kept.
  ghost predicate Popped(q: seq<real>, live: seq<real>, cutoff: real) {
    exists n :: 0 <= n <= |q| && live == q[n..] && (forall i :: 0 <= i < n ==> q[i] <= cutoff)
                && (n < |q| ==> q[n] > cutoff)
  }

  // A request is let in exactly if fewer than `limit` entries are left, and entered then. Otherwise the
  // delay is at least a second and the least whole number after which the oldest entry has expired.
  ghost predicate WindowMeans(q: seq<real>, q': seq<real>, now: real, limit: nat, window: nat, retry: Option<int>) {
    match retry
    case None => exists live | Popped(q, live, now - window as real) :: |live| < limit && q' == live + [now]
    case Some(d) =>
      && Popped(q, q', now - window as real) && |q'| >= limit && q' != []
      && d >= 1 && q'[0] + window as real <= now + d as real
      && (d > 1 ==> now + (d - 1) as real < q'[0] + window as real)
  }

  lemma {:induction false} PopExpiredMeans(q: seq<real>, cutoff: real)
    ensures Popped(q, PopExpired(q, cutoff), cutoff)
  {
    if q != [] && q[0] <= cutoff {
      PopExpiredMeans(q[1..], cutoff);
      var n :| 0 <= n <= |q[1..]| && PopExpired(q, cutoff) == q[1..][n..]
               && (forall i :: 0 <= i < n ==> q[1..][i] <= cutoff)
               && (n < |q[1..]| ==> q[1..][n] > cutoff);
      assert PopExpired(q, cutoff) == q[n + 1..];
      assert forall i :: 0 < i < n + 1 ==> q[i] == q[1..][i - 1];
    } else {
      assert q == q[0..];
    }
  }

  lemma ConsumedMeans(q: seq<real>, now: real, limit: nat, window: nat)
    requires 1 <= limit
    ensures var (q', retry) := Consumed(q, now, limit, window); WindowMeans(q, q', now, limit, window, retry)
  {
    PopExpiredMeans(q, now - window as real);
  }

  class RateLimiter {
    const maxRequests: nat
    const windowSeconds: nat
    var requests: map<string, seq<real>>

    constructor (maxRequests: nat, windowSeconds: nat)
      ensures this.maxRequests == maxRequests && this.windowSeconds == windowSeconds && requests == map[]
    {
      this.maxRequests, this.windowSeconds, requests := maxRequests, windowSeconds, map[];
    }

    // Only the caller's own bucket changes, and it changes as one window does.
    method Consume(key: string, now: real) returns (retry: Option<int>)
      requires 1 <= maxRequests
      modifies this
      ensures var q := if key in old(requests) then old(requests)[key] else [];
              && retry == Consumed(q, now, maxRequests, windowSeconds).1
              && requests == old(requests)[key := Consumed(q, now, maxRequests, windowSeconds).0]
              && WindowMeans(q, requests[key], now, maxRequests, windowSeconds, retry)
    {
      var q := if key in requests then requests[key] else [];
      ghost var before := q;
      ConsumedMeans(q, now, maxRequests, windowSeconds);
      var cutoff := now - windowSeconds as real;
      while q != [] && q[0] <= cutoff
        invariant PopExpired(q, cutoff) == PopExpired(before, cutoff)
        decreases |q|
      {
        q := q[1..];
      }
      if |q| >= maxRequests {
        requests := requests[key := q];
        var wait := Ceiling(q[0] + windowSeconds as real - now);
        return Some(if wait > 1 then wait else 1);
      }
      requests := requests[key := q + [now]];
      return None;
    }
  }

  // ---------------------------------------------------------------- facts about one deque

  predicate Sorted(q: seq<real>) {
    forall i, j :: 0 <= i < j < |q| ==> q[i] <= q[j]
  }

  // The entries in the half-open window (lo, hi].
  function Within(log: seq<real>, lo: real, hi: real): seq<real> {
    if log == [] then []
    else
      var n := |log| - 1;
      Within(log[..n], lo, hi) + (if lo < log[n] <= hi then [log[n]] else [])
  }

  lemma {:induction false} PopTwice(q: seq<real>, c: real, c': real)
    requires c <= c'
    ensures PopExpired(PopExpired(q, c), c') == PopExpired(q, c')
  {
    if q != [] && q[0] <= c { PopTwice(q[1..], c, c'); }
  }

  predicate Bounded(q: seq<real>, hi: real) {
    forall i :: 0 <= i < |q| ==> q[i] <= hi
  }

  lemma {:induction false} PopSnoc(q: seq<real>, t: real, c: real)
    requires Sorted(q) && Bounded(q, t)
    ensures PopExpired(q + [t], c) == PopExpired(q, c) + (if c < t || PopExpired(q, c) != [] then [t] else [])
    ensures PopExpired(q, c) != [] ==> c < t
  {
    if q == [] {
      assert ([t])[1..] == [];
    } else {
      assert (q + [t])[1..] == q[1..] + [t];
      if q[0] <= c { PopSnoc(q[1..], t, c); }
    }
  }

  // What popping leaves is a suffix, so it is as sorted and as bounded as before.
  lemma {:induction false} PopSuffix(q: seq<real>, c: real)
    ensures var p := PopExpired(q, c); |p| <= |q| && p == q[|q| - |p|..] && (p != [] ==> c < p[0])
  {
    if q != [] && q[0] <= c { PopSuffix(q[1..], c); }
  }

  // On a sorted log, popping from the front leaves exactly the entries after the cutoff.
  lemma {:induction false} PopIsWithin(q: seq<real>, c: real, hi: real)
    requires Sorted(q) && Bounded(q, hi)
    ensures PopExpired(q, c) == Within(q, c, hi)
  {
    if q != [] {
      var n := |q| - 1;
      PopIsWithin(q[..n], c, hi);
      PopSnoc(q[..n], q[n], c);
      assert q == q[..n] + [q[n]];
    }
  }

  // ---------------------------------------------------------------- whole runs

  // The deque and the instants of all admitted requests after requests at the instants `calls`.
  function Run(calls: seq<real>, limit: nat, window: nat): (seq<real>, seq<real>)
    requires 1 <= limit
  {
    if calls == [] then ([], [])
    else
      var n := |calls| - 1;
      var (q, log) := Run(calls[..n], limit, window);
      var (q', retry) := Consumed(q, calls[n], limit, window);
      (q', if retry.None? then log + [calls[n]] else log)
  }

  // The deque never forgets an admitted request that can still matter: popping it and popping the
  // whole log leave the same entries, at any cutoff from the last one on.
  ghost predicate Faithful(q: seq<real>, log: seq<real>, from: real) {
    forall c :: from <= c ==> PopExpired(q, c) == PopExpired(log, c)
  }

  lemma ConsumeKeepsFaithful(q: seq<real>, log: seq<real>, from: real, now: real, limit: nat, window: nat)
    requires 1 <= limit && Faithful(q, log, from) && from <= now - window as real
    requires Sorted(log) && Bounded(log, now)
    ensures var (q', retry) := Consumed(q, now, limit, window);
            && Faithful(q', if retry.None? then log + [now] else log, now - window as real)
            && (|q| <= limit ==> |q'| <= limit)
  {
    var cutoff := now - window as real;
    var live := PopExpired(q, cutoff);
    PopSuffix(q, cutoff);
    PopSuffix(log, cutoff);
    forall c | cutoff <= c
      ensures PopExpired(live, c) == PopExpired(log, c)
      ensures PopExpired(live + [now], c) == PopExpired(log + [now], c)
    {
      PopTwice(log, cutoff, c);
      PopSnoc(log, now, c);
      PopSnoc(live, now, c);
    }
  }

  // A lower bound for every cutoff that a later request can use.
  function Reach(calls: seq<real>, window: nat, start: real): real {
    (if calls == [] then start else calls[|calls| - 1]) - window as real
  }

  lemma {:induction false} RunInvariant(calls: seq<real>, limit: nat, window: nat, start: real)
    requires 1 <= limit && Sorted([start] + calls)
    ensures var (q, log) := Run(calls, limit, window);
            && Sorted(log) && Bounded(log, Reach(calls, 0, start)) && |q| <= limit
            && Faithful(q, log, Reach(calls, window, start))
  {
    if calls != [] {
      var n := |calls| - 1;
      var before := calls[..n];
      assert [start] + before == ([start] + calls)[..n + 1];
      RunInvariant(before, limit, window, start);
      var (q, log) := Run(before, limit, window);
      assert Reach(before, 0, start) == ([start] + calls)[n] <= ([start] + calls)[n + 1] == calls[n];
      ConsumeKeepsFaithful(q, log, Reach(before, window, start), calls[n], limit, window);
    }
  }

  // A request is admitted exactly when fewer than `limit` were admitted in the window before it.
  lemma AdmittedExactly(calls: seq<real>, now: real, limit: nat, window: nat)
    requires 1 <= limit && Sorted(calls) && Bounded(calls, now)
    ensures var (q, log) := Run(calls, limit, window);
            && Sorted(log) && Bounded(log, now) && |q| <= limit
            && PopExpired(q, now - window as real) == Within(log, now - window as real, now)
            && (Consumed(q, now, limit, window).1.None? <==> |Within(log, now - window as real, now)| < limit)
  {
    var start := if calls == [] then now else calls[0];
    RunInvariant(calls, limit, window, start);
    var (q, log) := Run(calls, limit, window);
    assert Reach(calls, window, start) <= now - window as real;
    PopIsWithin(log, now - window as real, now);
  }

  lemma {:induction false} WithinMonotone(log: seq<real>, lo: real, hi: real, lo': real, hi': real)
    requires lo' <= lo && Bounded(log, hi')
    ensures |Within(log, lo, hi)| <= |Within(log, lo', hi')|
  {
    if log != [] { WithinMonotone(log[..|log| - 1], lo, hi, lo', hi'); }
  }

  // Whatever window of the configured length is looked at, in hindsight, over the whole run, it holds
  // at most `limit` admitted requests.
  lemma {:induction false} EveryWindowIsBounded(calls: seq<real>, limit: nat, window: nat, hi: real)
    requires 1 <= limit && Sorted(calls)
    ensures |Within(Run(calls, limit, window).1, hi - window as real, hi)| <= limit
  {
    if calls != [] {
      var n := |calls| - 1;
      var now := calls[n];
      EveryWindowIsBounded(calls[..n], limit, window, hi);
      AdmittedExactly(calls[..n], now, limit, window);
      var (q, log) := Run(calls[..n], limit, window);
      assert (log + [now])[..|log|] == log;
      if now <= hi {
        WithinMonotone(log, hi - window as real, hi, now - window as real, now);
      }
    }
  }

  // The delay given with a refusal is the least positive whole number of seconds after which the
  // bucket, left alone, admits a request.
  lemma RetryIsLeast(calls: seq<real>, now: real, limit: nat, window: nat, d: int)
    requires 1 <= limit && Sorted(calls) && Bounded(calls, now) && 1 <= d
    ensures var q := Run(calls, limit, window).0; var (q', retry) := Consumed(q, now, limit, window);
            retry.Some? ==>
              retry.value >= 1 && (Consumed(q', now + d as real, limit, window).1.None? <==> retry.value <= d)
  {
    AdmittedExactly(calls, now, limit, window);
    var q := Run(calls, limit, window).0;
    var (live, retry) := Consumed(q, now, limit, window);
    if retry.Some? {
      PopSuffix(q, now - window as real);
      var c := now + d as real - window as real;
      if live[0] <= c {
        PopSuffix(live[1..], c);
      }
    }
  }

  lemma RunStep(calls: seq<real>, now: real, limit: nat, window: nat)
    requires 1 <= limit
    ensures var (q, log) := Run(calls, limit, window); var (q', retry) := Consumed(q, now, limit, window);
            Run(calls + [now], limit, window) == (q', if retry.None? then log + [now] else log)
  {
    assert (calls + [now])[..|calls|] == calls;
  }

  // ---------------------------------------------------------------- requests out of clock order

  // The clock is read before the lock is taken, so requests may be counted in any order. Admitted
  // requests with readings in the window that ends at `hi`.
  function WindowCount(calls: seq<real>, limit: nat, window: nat, hi: real): nat
    requires 1 <= limit
  {
    |Within(Run(calls, limit, window).1, hi - window as real, hi)|
  }

  ghost predicate AlwaysBounded(limit: nat, window: nat)
    requires 1 <= limit
  {
    forall calls: seq<real>, hi: real :: WindowCount(calls, limit, window, hi) <= limit
  }

  // In whatever order requests are counted, every window is bounded if and only if the limit is one
  // or the window is empty.
  lemma BoundedInAnyOrder(limit: nat, window: nat)
    requires 1 <= limit
    ensures AlwaysBounded(limit, window) <==> limit == 1 || window == 0
  {
    if limit > 1 && window > 0 {
      LateReadingBreaksTheBound(limit, window);
    } else {
      forall calls: seq<real>, hi: real
        ensures WindowCount(calls, limit, window, hi) <= limit
      {
        if window == 0 {
          EmptyWindow(Run(calls, limit, window).1, hi);
        } else {
          OneAtATime(calls, window);
          SpacedWindow(Run(calls, limit, window).1, window, hi);
        }
      }
    }
  }

  lemma {:induction false} EmptyWindow(log: seq<real>, hi: real)
    ensures Within(log, hi, hi) == []
  {
    if log != [] { EmptyWindow(log[..|log| - 1], hi); }
  }

  predicate Spaced(log: seq<real>, window: nat) {
    forall i, j :: 0 <= i < j < |log| ==> log[i] + window as real <= log[j]
  }

  // With a limit of one the deque holds the last admitted request, and the next one admitted is at
  // least a window later.
  lemma {:induction false} OneAtATime(calls: seq<real>, window: nat)
    ensures var (q, log) := Run(calls, 1, window);
            Spaced(log, window) && q == (if log == [] then [] else [log[|log| - 1]])
  {
    if calls != [] {
      var n := |calls| - 1;
      OneAtATime(calls[..n], window);
      OneMore(Run(calls[..n], 1, window).0, Run(calls[..n], 1, window).1, calls[n], window);
    }
  }

  lemma OneMore(q: seq<real>, log: seq<real>, now: real, window: nat)
    requires Spaced(log, window) && q == (if log == [] then [] else [log[|log| - 1]])
    ensures var (q', retry) := Consumed(q, now, 1, window);
            var log' := if retry.None? then log + [now] else log;
            Spaced(log', window) && q' == [log'[|log'| - 1]]
  {
    PopSuffix(q, now - window as real);
    assert q != [] ==> q[1..] == [];
    assert [] + [now] == [now];
    assert log != [] ==> forall i :: 0 <= i < |log| ==> log[i] <= log[|log| - 1];
  }

  lemma SpacedPrefix(log: seq<real>, window: nat)
    requires Spaced(log, window) && log != []
    ensures var n := |log| - 1; Spaced(log[..n], window) && Bounded(log[..n], log[n] - window as real)
  {
    var n := |log| - 1;
    forall i | 0 <= i < n
      ensures log[i] <= log[n] - window as real
    {
      assert log[i] + window as real <= log[n];
    }
  }

  lemma {:induction false} SpacedWindow(log: seq<real>, window: nat, hi: real)
    requires Spaced(log, window)
    ensures |Within(log, hi - window as real, hi)| <= 1
  {
    if log != [] {
      SpacedPrefix(log, window);
      var before := log[..|log| - 1];
      if log[|log| - 1] <= hi {
        NothingWithin(before, hi - window as real, hi);
      } else {
        SpacedWindow(before, window, hi);
      }
    }
  }

  lemma {:induction false} NothingWithin(log: seq<real>, lo: real, hi: real)
    requires Bounded(log, lo)
    ensures Within(log, lo, hi) == []
  {
    if log != [] { NothingWithin(log[..|log| - 1], lo, hi); }
  }

  function Ones(n: nat): seq<real> {
    if n == 0 then [] else Ones(n - 1) + [1.0]
  }

  // A window's worth of requests, one that pops them all, and a late one with an earlier reading.
  function LateReading(limit: nat, window: nat): seq<real> {
    Ones(limit) + [1.0 + window as real] + [0.5 + window as real]
  }

  lemma LateReadingBreaksTheBound(limit: nat, window: nat)
    requires limit > 1 && window > 0
    ensures WindowCount(LateReading(limit, window), limit, window, 0.5 + window as real) == limit + 1
  {
    var (w, ones) := (window as real, Ones(limit));
    OnesRun(limit, limit, window);
    OnesPopped(limit, 1.0);
    RunStep(ones, 1.0 + w, limit, window);
    RunStep(ones + [1.0 + w], 0.5 + w, limit, window);
    assert [] + [1.0 + w] == [1.0 + w];
    OnesWithin(limit, 0.5, 0.5 + w);
    WithinSnoc(ones, 1.0 + w, 0.5, 0.5 + w);
    WithinSnoc(ones + [1.0 + w], 0.5 + w, 0.5, 0.5 + w);
  }

  lemma {:induction false} OnesPopped(n: nat, cutoff: real)
    ensures PopExpired(Ones(n), cutoff) == (if 1.0 <= cutoff then [] else Ones(n))
    ensures Sorted(Ones(n)) && Bounded(Ones(n), 1.0) && |Ones(n)| == n
  {
    if n > 0 {
      OnesPopped(n - 1, cutoff);
      PopSnoc(Ones(n - 1), 1.0, cutoff);
    }
  }

  lemma AnotherOne(n: nat, limit: nat, window: nat)
    requires n < limit && 1 <= window
    ensures Consumed(Ones(n), 1.0, limit, window) == (Ones(n + 1), None)
  {
    OnesPopped(n, 1.0 - window as real);
  }

  lemma {:induction false} OnesRun(n: nat, limit: nat, window: nat)
    requires n <= limit && 1 <= limit && 1 <= window
    ensures Run(Ones(n), limit, window) == (Ones(n), Ones(n))
  {
    if n > 0 {
      OnesRun(n - 1, limit, window);
      AnotherOne(n - 1, limit, window);
      RunStep(Ones(n - 1), 1.0, limit, window);
    }
  }

  lemma {:induction false} OnesWithin(n: nat, lo: real, hi: real)
    requires lo < 1.0 <= hi
    ensures |Within(Ones(n), lo, hi)| == n
  {
    if n > 0 {
      OnesWithin(n - 1, lo, hi);
      WithinSnoc(Ones(n - 1), 1.0, lo, hi);
    }
  }

  lemma WithinSnoc(log: seq<real>, x: real, lo: real, hi: real)
    ensures |Within(log + [x], lo, hi)| == |Within(log, lo, hi)| + if lo < x <= hi then 1 else 0
  {
    assert (log + [x])[..|log|] == log;
  }
}
