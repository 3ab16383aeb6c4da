/** The per-key sliding-window limiter of `zilli/server/app.py`. The ghost log
    of accepted requests is what the trimmed deques must agree with. */
module RateLimiting {

  const MAX_LEN: nat := 100

  type Times = seq<real>

  function TimesOf(m: map<string, Times>, key: string): Times {
    if key in m then m[key] else []
  }

  ghost predicate Ascending(times: Times) {
    forall i, j :: 0 <= i < j < |times| ==> times[i] <= times[j]
  }

  /** The number of entries in (lo, hi]. */
  ghost function CountIn(times: Times, lo: real, hi: real): nat {
    if times == [] then 0 else
      var last := times[|times| - 1];
      CountIn(times[..|times| - 1], lo, hi) + (if lo < last <= hi then 1 else 0)
  }

  lemma {:induction false} CountInIs(times: Times, lo: real, hi: real)
    ensures CountIn(times, lo, hi) == |set i | 0 <= i < |times| && lo < times[i] <= hi|
  {
    if times != [] {
      var n := |times| - 1;
      CountInIs(times[..n], lo, hi);
      OneMoreTime(times[..n], times[n], lo, hi);
      assert times == times[..n] + [times[n]];
    }
  }

  lemma OneMoreTime(before: Times, t: real, lo: real, hi: real)
    ensures var all := before + [t];
            |set i | 0 <= i < |all| && lo < all[i] <= hi|
            == |set i | 0 <= i < |before| && lo < before[i] <= hi| + if lo < t <= hi then 1 else 0
  {
    var all := before + [t];
    assert (set i | 0 <= i < |all| && lo < all[i] <= hi)
        == (set i | 0 <= i < |before| && lo < before[i] <= hi) + (if lo < t <= hi then {|before|} else {});
  }

  ghost predicate Upto(times: Times, top: real) {
    forall i :: 0 <= i < |times| ==> times[i] <= top
  }

  ghost predicate Above(times: Times, lo: real) {
    forall i :: 0 <= i < |times| ==> lo < times[i]
  }

  lemma {:induction false} CountNone(times: Times, lo: real, hi: real)
    requires Upto(times, lo)
    ensures CountIn(times, lo, hi) == 0
  {
    if times != [] { CountNone(times[..|times| - 1], lo, hi); }
  }

  lemma {:induction false} CountAll(times: Times, lo: real, hi: real)
    requires Above(times, lo) && Upto(times, hi)
    ensures CountIn(times, lo, hi) == |times|
  {
    if times != [] { CountAll(times[..|times| - 1], lo, hi); }
  }

  lemma {:induction false} CountConcat(a: Times, b: Times, lo: real, hi: real)
    ensures CountIn(a + b, lo, hi) == CountIn(a, lo, hi) + CountIn(b, lo, hi)
  {
    if b == [] {
      assert a + b == a;
    } else {
      assert (a + b)[..|a + b| - 1] == a + b[..|b| - 1];
      CountConcat(a, b[..|b| - 1], lo, hi);
    }
  }

  lemma {:induction false} CountNarrower(times: Times, lo: real, hi: real, lo': real, hi': real)
    requires lo <= lo' && hi' <= hi
    ensures CountIn(times, lo', hi') <= CountIn(times, lo, hi)
  {
    if times != [] { CountNarrower(times[..|times| - 1], lo, hi, lo', hi'); }
  }

  /** The deque is the newest part of the log; what it lacks is too old to matter, or it is full. */
  ghost predicate Holds(dq: Times, log: Times, cutoff: real) {
    && |dq| <= |log| && |dq| <= MAX_LEN && dq == log[|log| - |dq|..]
    && (|dq| == MAX_LEN || Upto(log[..|log| - |dq|], cutoff))
  }

  /** Every entry was accepted when fewer than `limit` earlier ones lay in its window. */
  ghost predicate Paced(log: Times, window: real, limit: int) {
    log == [] ||
      var n := |log| - 1;
      CountIn(log[..n], log[n] - window, log[n]) < limit && Paced(log[..n], window, limit)
  }

  function Popped(dq: Times, cutoff: real): Times {
    if dq != [] && dq[0] <= cutoff then Popped(dq[1..], cutoff) else dq
  }

  /** After popping, the deque counts the window exactly, up to its capacity. */
  lemma {:induction false} PoppedCounts(dq: Times, log: Times, cutoff: real, now: real)
    requires Holds(dq, log, cutoff) && Ascending(log) && Upto(log, now)
    ensures var r, n := Popped(dq, cutoff), CountIn(log, cutoff, now);
            Holds(r, log, cutoff) && |r| == (if n < MAX_LEN then n else MAX_LEN)
    decreases |dq|
  {
    var n := |log| - |dq|;
    if dq != [] && dq[0] <= cutoff {
      assert dq[0] == log[n] && dq[1..] == log[n + 1..];
      forall i | 0 <= i < n + 1 ensures log[i] <= cutoff { assert log[i] <= log[n]; }
      PoppedCounts(dq[1..], log, cutoff, now);
    } else {
      assert log == log[..n] + dq;
      CountConcat(log[..n], dq, cutoff, now);
      if dq != [] {
        forall i | 0 <= i < |dq| ensures cutoff < dq[i] <= now { assert dq[i] == log[n + i] && dq[0] == log[n]; }
      }
      CountAll(dq, cutoff, now);
      if |dq| < MAX_LEN { CountNone(log[..n], cutoff, now); }
    }
  }

  /** What is true of one key: its deque, its log, and the clock. The pace is the window less
      what may pass between the two clock readings of a check. */
  ghost predicate KeyOk(dq: Times, log: Times, clock: real, window: real, pace: real, limit: int) {
    && Ascending(log) && Upto(log, clock) && Holds(dq, log, clock - window)
    && (limit <= MAX_LEN ==> Paced(log, pace, limit))
  }

  ghost predicate AllOk(requests: map<string, Times>, log: map<string, Times>, clock: real, window: real, pace: real,
                        limit: int) {
    forall key :: KeyOk(TimesOf(requests, key), TimesOf(log, key), clock, window, pace, limit)
  }

  lemma UpdateOk(requests: map<string, Times>, log: map<string, Times>, clock: real, window: real, pace: real,
                 limit: int,
                 key: string, dq: Times, l: Times)
    requires AllOk(requests, log, clock, window, pace, limit) && KeyOk(dq, l, clock, window, pace, limit)
    ensures AllOk(requests[key := dq], log[key := l], clock, window, pace, limit)
  {
    var requests', log' := requests[key := dq], log[key := l];
    forall k ensures KeyOk(TimesOf(requests', k), TimesOf(log', k), clock, window, pace, limit) {
      if k != key { assert KeyOk(TimesOf(requests, k), TimesOf(log, k), clock, window, pace, limit); }
    }
  }

  /** A deque at its capacity drops its oldest entry. */
  function Appended(dq: Times, now: real): Times {
    if |dq| < MAX_LEN then dq + [now] else dq[1..] + [now]
  }

  predicate Stale(dq: Times, cutoff: real) {
    dq != [] && dq[|dq| - 1] <= cutoff
  }

  /** From where a check counts: the cleanup it begins with uses a later reading of the clock,
      and forgets the key if its newest entry is out of the window by then. */
  function Cutoff(log: Times, now: real, later: real, window: real, due: bool): real {
    if due && Stale(log, later - window) then later - window else now - window
  }

  method PopOld(dq: Times, cutoff: real) returns (r: Times)
    ensures r == Popped(dq, cutoff)
  {
    r := dq;
    while r != [] && r[0] <= cutoff
      invariant Popped(r, cutoff) == Popped(dq, cutoff)
    {
      r := r[1..];
    }
  }

  /** Fewer than `limit` accepted requests lie in (cutoff, now]; a limit above the deques'
      capacity is never reached, and then everything is accepted. */
  ghost predicate Admits(log: Times, now: real, cutoff: real, limit: int) {
    limit <= MAX_LEN ==> CountIn(log, cutoff, now) < limit
  }

  ghost function Logged(log: Times, now: real, accepted: bool): Times {
    if accepted then log + [now] else log
  }

  /** The deque counts exactly from the cutoff. */
  ghost predicate Countable(dq: Times, log: Times, now: real, later: real, cutoff: real, window: real, pace: real,
                            limit: int) {
    && Ascending(log) && Upto(log, now) && Holds(dq, log, cutoff) && (limit <= MAX_LEN ==> Paced(log, pace, limit))
    && now <= later && cutoff <= later - window && cutoff <= now - pace && (cutoff == now - window || dq == [])
  }

  /** The part of a check that concerns its own key, once the cleanup is over. */
  method Decide(before: Times, now: real, window: real, limit: int,
                ghost log: Times, ghost cutoff: real, ghost later: real, ghost pace: real)
    returns (accepted: bool, dq: Times)
    requires Countable(before, log, now, later, cutoff, window, pace, limit)
    ensures KeyOk(dq, Logged(log, now, accepted), later, window, pace, limit)
    ensures accepted <==> Admits(log, now, cutoff, limit)
  {
    PopKey(before, log, now, later, cutoff, window, pace, limit);
    dq := PopOld(before, now - window);
    accepted := |dq| < limit;
    if accepted { dq := Appended(dq, now); }
  }

  /** The popped deque's length decides, and either outcome keeps what is true of the key. */
  lemma PopKey(before: Times, log: Times, now: real, later: real, cutoff: real, window: real, pace: real, limit: int)
    requires Countable(before, log, now, later, cutoff, window, pace, limit)
    ensures var dq := Popped(before, now - window);
            && (|dq| < limit <==> Admits(log, now, cutoff, limit))
            && (|dq| < limit ==> KeyOk(Appended(dq, now), log + [now], later, window, pace, limit))
            && (|dq| >= limit ==> KeyOk(dq, log, later, window, pace, limit))
  {
    PoppedCounts(before, log, cutoff, now);
    var dq := Popped(before, now - window);
    HoldsLater(dq, log, cutoff, later - window);
    if |dq| < limit { AcceptKey(dq, log, now, cutoff, later, window, pace, limit); }
  }

  lemma HoldsLater(dq: Times, log: Times, cutoff: real, cutoff': real)
    requires Holds(dq, log, cutoff) && cutoff <= cutoff'
    ensures Holds(dq, log, cutoff')
  {
  }

  /** What decides the checks to come: the accepted requests, and when the last cleanup was. */
  datatype State = State(log: map<string, Times>, lastCleanup: real)

  /** One check: its key, and its two readings of the clock. */
  datatype Reading = Reading(key: string, now: real, later: real)

  ghost function Step(s: State, c: Reading, window: real, interval: real, limit: int): State {
    var l, due := TimesOf(s.log, c.key), c.later - s.lastCleanup >= interval;
    var accepted := Admits(l, c.now, Cutoff(l, c.now, c.later, window, due), limit);
    State(s.log[c.key := Logged(l, c.now, accepted)], if due then c.later else s.lastCleanup)
  }

  /** The decision, as a count of the accepted requests after the start of a window. */
  lemma DecisionSpelled(l: Times, now: real, later: real, window: real, due: bool, limit: int)
    ensures var start := if due && l != [] && l[|l| - 1] <= later - window then later - window else now - window;
            && Cutoff(l, now, later, window, due) == start
            && (Admits(l, now, start, limit) <==> limit > 100 || |set i | 0 <= i < |l| && start < l[i] <= now| < limit)
  {
    CountInIs(l, Cutoff(l, now, later, window, due), now);
  }

  class RateLimiter {
    var requests: map<string, Times>
    const maxRequests: int
    const window: real
    const cleanupInterval: real
    var lastCleanup: real
    ghost const slack: real           // bounds what passes between the two readings of a check
    ghost var log: map<string, Times>
    ghost var clock: real

    ghost predicate Valid()
      reads this
    {
      AllOk(requests, log, clock, window, window - slack, maxRequests)
    }

    constructor (maxRequests: int, window: real, cleanupInterval: real, ghost slack: real, now: real)
      ensures Valid() && log == map[] && requests == map[] && clock == now && this.slack == slack
      ensures this.maxRequests == maxRequests && this.window == window && this.cleanupInterval == cleanupInterval
    {
      requests, log, lastCleanup, clock := map[], map[], 0.0, now;
      this.maxRequests, this.window, this.cleanupInterval, this.slack := maxRequests, window, cleanupInterval, slack;
    }

    /** Forgets, when it is time to, the keys whose newest entry has left the window. */
    method PeriodicCleanup(now: real)
      requires Valid() && clock <= now
      modifies `requests, `lastCleanup, `clock
      ensures Valid() && clock == now
      ensures var due := now - old(lastCleanup) >= cleanupInterval;
              lastCleanup == (if due then now else old(lastCleanup)) &&
                  AllCleaned(old(requests), requests, now - window, due)
    {
      CleanupAll(requests, log, clock, now, window, window - slack, maxRequests, now - lastCleanup >= cleanupInterval);
      clock := now;
      if now - lastCleanup >= cleanupInterval {
        lastCleanup := now;
        requests := Cleanup(requests, now - window);
      }
    }

    /** Accepts exactly when the whole log of accepted requests admits one more. `now` is the
        reading the decision uses, `later` the one the cleanup takes after it. */
    method Check(key: string, now: real, later: real) returns (accepted: bool)
      requires Valid() && clock <= now <= later <= now + slack
      modifies this
      ensures Valid() && clock == later
      ensures var l := TimesOf(old(log), key);
              var due := later - old(lastCleanup) >= cleanupInterval;
              accepted <==> Admits(l, now, Cutoff(l, now, later, window, due), maxRequests)
      ensures State(log, lastCleanup)
           == Step(State(old(log), old(lastCleanup)), Reading(key, now, later), window, cleanupInterval, maxRequests)
      ensures var l := TimesOf(old(log), key);
              var due := later - old(lastCleanup) >= cleanupInterval;
              var start := if due && l != [] && l[|l| - 1] <= later - window then later - window else now - window;
              && (accepted <==> maxRequests > 100 || |set i | 0 <= i < |l| && start < l[i] <= now| < maxRequests)
              && log == old(log)[key := if accepted then l + [now] else l]
              && lastCleanup == if due then later else old(lastCleanup)
    {
      DecisionSpelled(TimesOf(log, key), now, later, window, later - lastCleanup >= cleanupInterval, maxRequests);
      accepted := CheckKey(key, now, later);
    }

    method CheckKey(key: string, now: real, later: real) returns (accepted: bool)
      requires Valid() && clock <= now <= later <= now + slack
      modifies this
      ensures Valid() && clock == later
      ensures var l := TimesOf(old(log), key);
              var due := later - old(lastCleanup) >= cleanupInterval;
              accepted <==> Admits(l, now, Cutoff(l, now, later, window, due), maxRequests)
      ensures State(log, lastCleanup)
           == Step(State(old(log), old(lastCleanup)), Reading(key, now, later), window, cleanupInterval, maxRequests)
    {
      ghost var due := later - lastCleanup >= cleanupInterval;
      PeriodicCleanup(later);
      CheckReady(old(requests), requests, log, old(clock), now, later, window, window - slack, maxRequests, due, key);
      ghost var l := TimesOf(log, key);
      var dq;
      accepted, dq := Decide(TimesOf(requests, key), now, window, maxRequests, l,
                             Cutoff(l, now, later, window, due), later, window - slack);
      Keep(key, dq, Logged(l, now, accepted));
    }

    method Keep(key: string, dq: Times, ghost l: Times)
      requires Valid() && KeyOk(dq, l, clock, window, window - slack, maxRequests)
      modifies `requests, `log
      ensures Valid() && requests == old(requests)[key := dq] && log == old(log)[key := l]
    {
      UpdateOk(requests, log, clock, window, window - slack, maxRequests, key, dq, l);
      requests := requests[key := dq];
      log := log[key := l];
    }
  }

  function Cleanup(requests: map<string, Times>, cutoff: real): map<string, Times> {
    map k | k in requests && !Stale(requests[k], cutoff) :: requests[k]
  }

  ghost predicate AllCleaned(before: map<string, Times>, after: map<string, Times>, cutoff: real, due: bool) {
    forall key :: TimesOf(after, key) == Cleaned(TimesOf(before, key), cutoff, due)
  }

  lemma CleanupAll(requests: map<string, Times>, log: map<string, Times>, clock: real, now: real, window: real,
                   pace: real,
                   limit: int, due: bool)
    requires AllOk(requests, log, clock, window, pace, limit) && clock <= now
    ensures var left := if due then Cleanup(requests, now - window) else requests;
            AllOk(left, log, now, window, pace, limit) && AllCleaned(requests, left, now - window, due)
  {
    var left := if due then Cleanup(requests, now - window) else requests;
    forall key
      ensures TimesOf(left, key) == Cleaned(TimesOf(requests, key), now - window, due)
      ensures KeyOk(TimesOf(left, key), TimesOf(log, key), now, window, pace, limit)
    {
      KeyOf(requests, log, clock, window, pace, limit, key);
      CleanupKey(TimesOf(requests, key), TimesOf(log, key), clock, now, window, pace, limit);
    }
  }

  function Cleaned(dq: Times, cutoff: real, due: bool): Times {
    if due && Stale(dq, cutoff) then [] else dq
  }

  lemma KeyOf(requests: map<string, Times>, log: map<string, Times>, clock: real, window: real, pace: real, limit: int,
              key: string)
    requires AllOk(requests, log, clock, window, pace, limit)
    ensures KeyOk(TimesOf(requests, key), TimesOf(log, key), clock, window, pace, limit)
  {
  }

  lemma AllUpto(times: Times, top: real)
    requires Ascending(times) && Stale(times, top)
    ensures Upto(times, top)
  {
    forall i | 0 <= i < |times| ensures times[i] <= top { assert times[i] <= times[|times| - 1]; }
  }

  /** Letting time pass, and forgetting a deque whose newest entry is out of the window. */
  lemma CleanupKey(dq: Times, log: Times, before: real, now: real, window: real, pace: real, limit: int)
    requires KeyOk(dq, log, before, window, pace, limit) && before <= now
    ensures KeyOk(dq, log, now, window, pace, limit)
    ensures Stale(dq, now - window) ==> KeyOk([], log, now, window, pace, limit)
  {
    HoldsLater(dq, log, before - window, now - window);
    if Stale(dq, now - window) {
      assert dq[|dq| - 1] == log[|log| - 1];
      AllUpto(log, now - window);
      assert log[|log| - 0..] == [];
    }
  }

  /** What the cleanup leaves of a key counts exactly from the cutoff. */
  lemma AfterCleanup(dq: Times, log: Times, clock: real, now: real, later: real, window: real, pace: real, limit: int,
                     due: bool)
    requires KeyOk(dq, log, clock, window, pace, limit) && clock <= now <= later <= now + (window - pace)
    ensures var dq', cutoff := Cleaned(dq, later - window, due), Cutoff(log, now, later, window, due);
            Countable(dq', log, now, later, cutoff, window, pace, limit)
  {
    HoldsLater(dq, log, clock - window, now - window);
    if dq != [] { assert dq[|dq| - 1] == log[|log| - 1]; }
    if due && Stale(log, later - window) {
      AllUpto(log, later - window);
      assert log[|log| - 0..] == [];
    }
  }

  lemma CheckReady(before: map<string, Times>, after: map<string, Times>, log: map<string, Times>, clock: real,
                   now: real, later: real,
                   window: real, pace: real, limit: int, due: bool, key: string)
    requires AllOk(before, log, clock, window, pace, limit) && AllCleaned(before, after, later - window, due)
    requires clock <= now <= later <= now + (window - pace)
    ensures var l := TimesOf(log, key);
            Countable(TimesOf(after, key), l, now, later, Cutoff(l, now, later, window, due), window, pace, limit)
  {
    KeyOf(before, log, clock, window, pace, limit, key);
    AfterCleanup(TimesOf(before, key), TimesOf(log, key), clock, now, later, window, pace, limit, due);
  }

  lemma AcceptKey(dq: Times, log: Times, now: real, cutoff: real, later: real, window: real, pace: real, limit: int)
    requires Ascending(log) && Upto(log, now) && Holds(dq, log, cutoff) &&
             (limit <= MAX_LEN ==> Paced(log, pace, limit))
    requires now <= later && cutoff <= later - window && cutoff <= now - pace
    requires limit <= MAX_LEN ==> CountIn(log, cutoff, now) < limit
    ensures KeyOk(Appended(dq, now), log + [now], later, window, pace, limit)
  {
    AcceptSorted(log, now);
    HoldsLater(dq, log, cutoff, later - window);
    AcceptHolds(dq, log, now, later - window);
    if limit <= MAX_LEN { AcceptFrom(log, now, cutoff, pace, limit); }
  }

  lemma AcceptFrom(log: Times, now: real, cutoff: real, pace: real, limit: int)
    requires Paced(log, pace, limit) && cutoff <= now - pace && CountIn(log, cutoff, now) < limit
    ensures Paced(log + [now], pace, limit)
  {
    CountNarrower(log, cutoff, now, now - pace, now);
    AcceptPaced(log, now, pace, limit);
  }

  lemma AcceptPaced(log: Times, now: real, window: real, limit: int)
    requires Paced(log, window, limit) && CountIn(log, now - window, now) < limit
    ensures Paced(log + [now], window, limit)
  {
    assert (log + [now])[..|log|] == log;
  }

  lemma AcceptHolds(dq: Times, log: Times, now: real, cutoff: real)
    requires Holds(dq, log, cutoff)
    ensures Holds(Appended(dq, now), log + [now], cutoff)
  {
    var log' := log + [now];
    var dq' := Appended(dq, now);
    assert dq' == log'[|log'| - |dq'|..];
    if |dq| < MAX_LEN { assert log'[..|log'| - |dq'|] == log[..|log| - |dq|]; }
  }

  /** In a paced log no window of that length, wherever it starts, holds more than the limit. */
  lemma {:induction false} NoWindowOverflows(log: Times, window: real, limit: int, t: real)
    requires Ascending(log) && Paced(log, window, limit) && limit >= 0
    ensures CountIn(log, t - window, t) <= limit
  {
    if log != [] {
      var n := |log| - 1;
      var rest, top := log[..n], log[n];
      if t - window < top <= t {
        EndAt(rest, t - window, t, top);
        CountNarrower(rest, top - window, top, t - window, top);
      } else {
        NoWindowOverflows(rest, window, limit, t);
      }
    }
  }

  /** Entries all at or before `top` are not affected by where above `top` the window ends. */
  lemma {:induction false} EndAt(times: Times, lo: real, hi: real, top: real)
    requires top <= hi && Upto(times, top)
    ensures CountIn(times, lo, hi) == CountIn(times, lo, top)
  {
    if times != [] { EndAt(times[..|times| - 1], lo, hi, top); }
  }

  /** For every key and every moment: at most maxRequests acceptances in the window before it,
      less what may pass between the two readings of a check. */
  lemma LimitHolds(r: RateLimiter, key: string, t: real)
    requires r.Valid() && 0 <= r.maxRequests <= MAX_LEN
    ensures CountIn(TimesOf(r.log, key), t - (r.window - r.slack), t) <= r.maxRequests
  {
    NoWindowOverflows(TimesOf(r.log, key), r.window - r.slack, r.maxRequests, t);
  }

  /** A check decides as a count over the whole window would, unless the limit is used up in it
      and the cleanup falls due and finds the newest entry out of the window. */
  lemma CountsWindowIff(log: Times, now: real, later: real, window: real, due: bool, limit: int)
    requires Ascending(log) && now <= later && limit <= MAX_LEN
    ensures (Admits(log, now, Cutoff(log, now, later, window, due), limit) <==> Admits(log, now, now - window, limit))
       <==> !(due && Stale(log, later - window) && 0 < limit <= CountIn(log, now - window, now))
  {
    if due && Stale(log, later - window) {
      AllUpto(log, later - window);
      CountNone(log, later - window, now);
    }
  }

  /** The allowance is needed: with a limit of one, a request half a second before the end of
      the window is accepted if the cleanup falls due in between. */
  lemma ForgottenTooSoon()
    ensures var log, now, later, window := [0.0], 59.5, 60.0, 60.0;
            && Admits(log, now, Cutoff(log, now, later, window, true), 1)
            && !Admits(log, now, Cutoff(log, now, now, window, true), 1)
            && CountIn(Logged(log, now, true), now - window, now) == 2
  {
    var log := [0.0];
    assert log[..0] == [];
    assert CountIn(log, 0.0, 59.5) == 0 && CountIn(log, -0.5, 59.5) == 1;
    assert (log + [59.5])[..1] == log;
  }

  lemma AcceptSorted(log: Times, now: real)
    requires Ascending(log) && Upto(log, now)
    ensures Ascending(log + [now]) && Upto(log + [now], now)
  {
  }
}
