/** Whole runs of the limiter of `zilli/server/app.py`: which windows keep the limit, whatever
    the keys, the times and the moments at which a cleanup falls due. */
module LimiterRuns {
  import opened RateLimiting

  /** The settings, and what may pass between the two clock readings of a check. */
  datatype Setup = Setup(window: real, interval: real, limit: nat, slack: real)

  /** The clock never goes back, and the second reading of a check follows soon enough. */
  ghost predicate IsRun(checks: seq<Reading>, slack: real) {
    checks == [] ||
      var n := |checks| - 1;
      && IsRun(checks[..n], slack)
      && checks[n].now <= checks[n].later <= checks[n].now + slack
      && (n > 0 ==> checks[n - 1].later <= checks[n].now)
  }

  ghost function After(u: Setup, checks: seq<Reading>): State {
    if checks == [] then State(map[], 0.0) else
      Step(After(u, checks[..|checks| - 1]), checks[|checks| - 1], u.window, u.interval, u.limit)
  }

  /** The requests of a key accepted in a run. */
  ghost function LogOf(u: Setup, checks: seq<Reading>, key: string): Times {
    TimesOf(After(u, checks).log, key)
  }

  ghost function InWindow(times: Times, length: real, t: real): nat {
    CountIn(times, t - length, t)
  }

  /** No window of the length holds more than the limit, for any key. */
  ghost predicate Kept(u: Setup, length: real, checks: seq<Reading>) {
    forall key, t :: InWindow(LogOf(u, checks, key), length, t) <= u.limit
  }

  /** What makes a length safe: the window less the slack, if the limit is within the capacity
      of the deques; apart from lengths and limits with which nothing can go wrong. */
  predicate Safe(u: Setup, length: real) {
    u.limit == 0 || length <= 0.0 || (u.limit <= MAX_LEN && length <= u.window - u.slack)
  }

  /** Over all runs the limit is kept in windows of a length exactly when the length is safe. */
  lemma LimitKeptIff(u: Setup, length: real)
    requires u.slack >= 0.0
    ensures (forall checks :: IsRun(checks, u.slack) ==> Kept(u, length, checks))
       <==> u.limit == 0 || length <= 0.0 || (u.limit <= 100 && length <= u.window - u.slack)
  {
    if Safe(u, length) {
      forall checks | IsRun(checks, u.slack) ensures Kept(u, length, checks) {
        forall key, t ensures InWindow(LogOf(u, checks, key), length, t) <= u.limit {
          SafeKeeps(u, length, checks, key, t);
        }
      }
    } else if Room(u, u.limit) {
      var checks := BurstOverflows(u, length, if u.interval > 0.0 then u.interval else 0.0);
    } else {
      var checks := ForgottenOverflows(u, length);
    }
  }

  // ----- safe lengths -----

  lemma SafeKeeps(u: Setup, length: real, checks: seq<Reading>, key: string, t: real)
    requires u.slack >= 0.0 && Safe(u, length) && IsRun(checks, u.slack)
    ensures InWindow(LogOf(u, checks, key), length, t) <= u.limit
  {
    if length <= 0.0 {
      EmptyWindow(LogOf(u, checks, key), t - length, t);
    } else {
      RunPaced(u, checks, key);
      RunSorted(u, checks, key, if checks == [] then 0.0 else checks[|checks| - 1].later);
      PacedKeeps(LogOf(u, checks, key), u.window - u.slack, length, u.limit, t);
    }
  }

  lemma PacedKeeps(log: Times, pace: real, length: real, limit: nat, t: real)
    requires Ascending(log) && Paced(log, pace, limit) && (limit == 0 || length <= pace)
    ensures InWindow(log, length, t) <= limit
  {
    if limit == 0 {
      assert log == [];
    } else {
      NoWindowOverflows(log, pace, limit, t);
      CountNarrower(log, t - pace, t, t - length, t);
    }
  }

  lemma {:induction false} EmptyWindow(times: Times, lo: real, hi: real)
    requires lo >= hi
    ensures CountIn(times, lo, hi) == 0
  {
    if times != [] { EmptyWindow(times[..|times| - 1], lo, hi); }
  }

  lemma {:induction false} RunSorted(u: Setup, checks: seq<Reading>, key: string, top: real)
    requires IsRun(checks, u.slack) && (checks != [] ==> checks[|checks| - 1].later <= top)
    ensures Ascending(LogOf(u, checks, key)) && Upto(LogOf(u, checks, key), top)
  {
    if checks != [] {
      var n := |checks| - 1;
      RunSorted(u, checks[..n], key, checks[n].now);
      AcceptSorted(LogOf(u, checks[..n], key), checks[n].now);
    }
  }

  lemma {:induction false} RunPaced(u: Setup, checks: seq<Reading>, key: string)
    requires u.slack >= 0.0 && u.limit <= MAX_LEN && IsRun(checks, u.slack)
    ensures Paced(LogOf(u, checks, key), u.window - u.slack, u.limit)
  {
    if checks != [] {
      var n := |checks| - 1;
      RunPaced(u, checks[..n], key);
      var s, c := After(u, checks[..n]), checks[n];
      var l, due := TimesOf(s.log, key), c.later - s.lastCleanup >= u.interval;
      var cutoff := Cutoff(l, c.now, c.later, u.window, due);
      if key == c.key && Admits(l, c.now, cutoff, u.limit) {
        AcceptFrom(l, c.now, cutoff, u.window - u.slack, u.limit);
      }
    }
  }

  // ----- unsafe lengths -----

  const KEY := "a"
  const OTHER := "b"

  lemma AfterSnoc(u: Setup, checks: seq<Reading>, c: Reading)
    ensures After(u, checks + [c]) == Step(After(u, checks), c, u.window, u.interval, u.limit)
  {
    assert (checks + [c])[..|checks|] == checks;
  }

  lemma RunSnoc(checks: seq<Reading>, c: Reading, slack: real)
    requires IsRun(checks, slack) && c.now <= c.later <= c.now + slack
    requires checks != [] ==> checks[|checks| - 1].later <= c.now
    ensures IsRun(checks + [c], slack)
  {
    assert (checks + [c])[..|checks|] == checks;
  }

  /** The same time, n times. */
  function Copies(time: real, n: nat): (r: Times)
    ensures |r| == n && forall i :: 0 <= i < n ==> r[i] == time
  {
    if n == 0 then [] else Copies(time, n - 1) + [time]
  }

  /** A check of another key at `start`, when a cleanup is due, then n of one key at `time`. */
  ghost function Burst(start: real, time: real, n: nat): (checks: seq<Reading>)
    ensures |checks| == n + 1 && checks[n].later == if n == 0 then start else time
  {
    if n == 0 then [Reading(OTHER, start, start)] else Burst(start, time, n - 1) + [Reading(KEY, time, time)]
  }

  lemma {:induction false} BurstIsRun(start: real, time: real, n: nat, slack: real)
    requires start <= time && slack >= 0.0
    ensures IsRun(Burst(start, time, n), slack)
  {
    if n == 0 {
      RunSnoc([], Reading(OTHER, start, start), slack);
      assert [] + [Reading(OTHER, start, start)] == Burst(start, time, 0);
    } else {
      BurstIsRun(start, time, n - 1, slack);
      RunSnoc(Burst(start, time, n - 1), Reading(KEY, time, time), slack);
    }
  }

  /** Where a burst leads: the other key's cleanup is the last, and one key has n entries. */
  ghost predicate Filled(s: State, start: real, time: real, n: nat) {
    TimesOf(s.log, KEY) == Copies(time, n) && s.lastCleanup == start
  }

  /** A check that follows n accepted ones at once is accepted too: the limit is not used up,
      is beyond the capacity, or nothing ever lies in the window. */
  predicate Room(u: Setup, n: nat) {
    n < u.limit || u.limit > MAX_LEN || (u.window <= 0.0 && u.limit > 0)
  }

  lemma FillOne(u: Setup, s: State, start: real, time: real, n: nat)
    requires Filled(s, start, time, n) && Room(u, n)
    requires time == start || time - start < u.interval
    ensures Filled(Step(s, Reading(KEY, time, time), u.window, u.interval, u.limit), start, time, n + 1)
  {
    var l := Copies(time, n);
    if u.window > 0.0 { CountAll(l, time - u.window, time); } else { EmptyWindow(l, time - u.window, time); }
  }

  /** As long as there is room all are accepted. */
  lemma {:induction false} BurstAccepted(u: Setup, start: real, time: real, n: nat)
    requires (n > 0 ==> Room(u, n - 1)) && start >= u.interval && (time == start || time - start < u.interval)
    ensures Filled(After(u, Burst(start, time, n)), start, time, n)
  {
    if n == 0 {
      var first := Reading(OTHER, start, start);
      AfterSnoc(u, [], first);
      assert [] + [first] == Burst(start, time, 0);
      assert KEY[0] != OTHER[0];
    } else {
      BurstAccepted(u, start, time, n - 1);
      AfterSnoc(u, Burst(start, time, n - 1), Reading(KEY, time, time));
      FillOne(u, After(u, Burst(start, time, n - 1)), start, time, n - 1);
    }
  }

  lemma CopiesCount(time: real, n: nat, length: real)
    requires length > 0.0
    ensures InWindow(Copies(time, n), length, time) == n
  {
    CountAll(Copies(time, n), time - length, time);
  }

  lemma NotKept(u: Setup, length: real, checks: seq<Reading>, t: real)
    requires InWindow(LogOf(u, checks, KEY), length, t) > u.limit
    ensures !Kept(u, length, checks)
  {
  }

  lemma BurstOverflows(u: Setup, length: real, start: real) returns (checks: seq<Reading>)
    requires u.slack >= 0.0 && length > 0.0 && Room(u, u.limit) && start >= u.interval
    ensures IsRun(checks, u.slack) && !Kept(u, length, checks)
  {
    var n := u.limit + 1;
    checks := Burst(start, start, n);
    BurstIsRun(start, start, n, u.slack);
    BurstAccepted(u, start, start, n);
    CopiesCount(start, n, length);
    assert LogOf(u, checks, KEY) == Copies(start, n);
    NotKept(u, length, checks, start);
  }

  /** The limit is used up at one time, and a check just before the end of its window is held up
      until a cleanup falls due and finds all of it out of the window. */
  lemma ForgottenOverflows(u: Setup, length: real) returns (checks: seq<Reading>)
    requires u.window > 0.0 && u.slack >= 0.0 && 0 < u.limit <= MAX_LEN && length > 0.0 && length > u.window - u.slack
    ensures IsRun(checks, u.slack) && !Kept(u, length, checks)
  {
    var start := if u.interval > 0.0 then u.interval else 0.0;
    var time := if u.window < u.interval then start + u.interval - u.window else start;
    var gap := if u.slack < u.window then u.slack else u.window;
    checks := LateOverflows(u, length, start, time, time + u.window - gap);
  }

  lemma LateOverflows(u: Setup, length: real, start: real, time: real, now: real) returns (checks: seq<Reading>)
    requires u.window > 0.0 && u.slack >= 0.0 && 0 < u.limit
    requires u.interval <= start <= time && (time == start || time - start < u.interval)
    requires time <= now <= time + u.window <= now + u.slack
    requires time + u.window - start >= u.interval && now - length < time
    ensures IsRun(checks, u.slack) && !Kept(u, length, checks)
  {
    var burst, late := Burst(start, time, u.limit), Reading(KEY, now, time + u.window);
    BurstIsRun(start, time, u.limit, u.slack);
    RunSnoc(burst, late, u.slack);
    BurstAccepted(u, start, time, u.limit);
    AfterSnoc(u, burst, late);
    AcceptLate(u, After(u, burst), start, time, late);
    checks := burst + [late];
    LateCount(time, u.limit, now, length);
    NotKept(u, length, checks, now);
  }

  lemma LateCount(time: real, n: nat, now: real, length: real)
    requires now - length < time <= now
    ensures InWindow(Copies(time, n) + [now], length, now) == n + 1
  {
    CountAll(Copies(time, n) + [now], now - length, now);
  }

  lemma AcceptLate(u: Setup, s: State, start: real, time: real, late: Reading)
    requires Filled(s, start, time, u.limit) && u.limit > 0
    requires late.key == KEY && late.later == time + u.window && late.later - start >= u.interval
    ensures TimesOf(Step(s, late, u.window, u.interval, u.limit).log, KEY) == Copies(time, u.limit) + [late.now]
  {
    var l := Copies(time, u.limit);
    assert Cutoff(l, late.now, late.later, u.window, true) == time;
    CountNone(l, time, late.now);
  }
}
