/** How often the executor of `zilli/dag/engine.py` tries: what a node's retries allow, and the
    attempts that stand behind every status in every run. */
module DagAttempts {
  import opened Common
  import opened DagGraph
  import opened TaskDag
  import opened DagExecution
  import opened DagConfluence

  /** A node can succeed exactly when the first attempt or one of its retries would. */
  lemma CanSucceedIff(c: Config, v: NodeId)
    requires v in c.retries
    ensures CanSucceed(c, v) <==> exists k: nat :: k <= c.retries[v] && c.succeeds(v, k)
  {
  }

  /** What f failed and g successful attempts at v stand for. */
  ghost predicate Spent(c: Config, s: State, v: NodeId, f: nat, g: nat) {
    && (v in s.tasks && s.tasks[v].Active? ==> f == s.tasks[v].tries && g == 0)
    && (v in s.status && (s.status[v] == Pending || s.status[v] == Skipped) ==> f == 0 && g == 0)
    && (v in s.status && s.status[v] == Completed ==>
          g == 1 && f < MaxTries(c, v) && c.succeeds(v, f) && AllFail(c, v, f))
    && (v in s.status && s.status[v] == Failed ==> g == 0 && f == MaxTries(c, v) && AllFail(c, v, f))
  }

  lemma SpentStep(c: Config, s: State, e: Event, v: NodeId, f: nat, g: nat)
    requires ValidConfig(c) && Shape(c, s) && Grounded(c, s) && Honest(c, s) && Enabled(c, s, e) && Spent(c, s, v, f, g)
    ensures Spent(c, Apply(c, s, e), v, f + (if e == Fail(v) then 1 else 0), g + (if e == Succeed(v) then 1 else 0))
  {
    match e
    case Reap(w) => SpentReap(c, s, w, v, f, g);
    case Scan => SpentScan(c, s, v, f, g);
    case _ => SpentTask(c, s, e, v, f, g);
  }

  lemma SpentReap(c: Config, s: State, w: NodeId, v: NodeId, f: nat, g: nat)
    requires ValidConfig(c) && Shape(c, s) && Grounded(c, s) && Enabled(c, s, Reap(w)) && Spent(c, s, v, f, g)
    ensures Spent(c, ApplyReap(c, s, w), v, f, g)
  {
    ReapChanges(c, s, w);
  }

  lemma SpentScan(c: Config, s: State, v: NodeId, f: nat, g: nat)
    requires ValidConfig(c) && Shape(c, s) && Grounded(c, s) && Enabled(c, s, Scan) && Spent(c, s, v, f, g)
    ensures Spent(c, ApplyScan(c, s), v, f, g)
  {
    ScanChanges(c, s);
  }

  lemma SpentTask(c: Config, s: State, e: Event, v: NodeId, f: nat, g: nat)
    requires Shape(c, s) && Honest(c, s) && Enabled(c, s, e) && !e.Reap? && !e.Scan? && Spent(c, s, v, f, g)
    ensures Spent(c, Apply(c, s, e), v, f + (if e == Fail(v) then 1 else 0), g + (if e == Succeed(v) then 1 else 0))
  {
  }

  /** A state of a run from the start, with the attempts at v so far. */
  ghost predicate Tracked(c: Config, s: State, v: NodeId, f: nat, g: nat) {
    Inv(c, s) && Spent(c, s, v, f, g)
  }

  lemma TrackedStep(c: Config, s: State, e: Event, v: NodeId, f: nat, g: nat) returns (f': nat, g': nat)
    requires ValidConfig(c) && Enabled(c, s, e) && Tracked(c, s, v, f, g)
    ensures f' == (if e == Fail(v) then f + 1 else f) && g' == (if e == Succeed(v) then g + 1 else g)
    ensures Tracked(c, Apply(c, s, e), v, f', g')
  {
    f', g' := if e == Fail(v) then f + 1 else f, if e == Succeed(v) then g + 1 else g;
    EventInv(c, s, e);
    SpentStep(c, s, e, v, f, g);
  }

  lemma {:induction false} RunTracked(c: Config, s: State, events: seq<Event>, v: NodeId, f: nat, g: nat)
    returns (f': nat, g': nat)
    requires ValidConfig(c) && IsRun(c, s, events) && Tracked(c, s, v, f, g)
    ensures f' == f + multiset(events)[Fail(v)] && g' == g + multiset(events)[Succeed(v)]
    ensures Tracked(c, After(c, s, events), v, f', g')
    decreases |events|
  {
    if events == [] {
      f', g' := f, g;
    } else {
      CountFirst(events, Fail(v));
      CountFirst(events, Succeed(v));
      f', g' := TrackedStep(c, s, events[0], v, f, g);
      f', g' := RunTracked(c, Apply(c, s, events[0]), events[1..], v, f', g');
    }
  }

  lemma SpentSpelled(c: Config, s: State, v: NodeId, fails: nat, wins: nat)
    requires Spent(c, s, v, fails, wins) && Shape(c, s) && Honest(c, s) && v in s.status && v in c.retries
    ensures s.status[v] == Failed ==>
              wins == 0 && fails == (if c.retries[v] >= 0 then c.retries[v] + 1 else 0)
              && forall k: nat :: k <= c.retries[v] ==> !c.succeeds(v, k)
    ensures s.status[v] == Completed ==>
              wins == 1 && fails <= c.retries[v] && c.succeeds(v, fails)
              && forall k: nat :: k < fails ==> !c.succeeds(v, k)
    ensures s.status[v] == Pending || s.status[v] == Skipped ==> wins == 0 && fails == 0
    ensures s.status[v] == Running ==>
              wins == 0 && fails <= (if c.retries[v] >= 0 then c.retries[v] + 1 else 0)
              && forall k: nat :: k < fails ==> !c.succeeds(v, k)
  {
  }

  /** At every moment of every run: a failed node has failed max_retries + 1 times (never, if that
      is negative); a completed one has failed up to its first successful attempt, which is no later
      than the last retry, and succeeded once; a pending or skipped one was never tried. */
  lemma AttemptsExact(c: Config, events: seq<Event>, v: NodeId) returns (st: NodeStatus, fails: nat, wins: nat)
    requires ValidConfig(c) && IsRun(c, Init(c), events) && v in c.retries
    ensures v in After(c, Init(c), events).status && st == After(c, Init(c), events).status[v]
    ensures fails == multiset(events)[Fail(v)] && wins == multiset(events)[Succeed(v)]
    ensures st == Failed ==>
              wins == 0 && fails == (if c.retries[v] >= 0 then c.retries[v] + 1 else 0)
              && forall k: nat :: k <= c.retries[v] ==> !c.succeeds(v, k)
    ensures st == Completed ==>
              wins == 1 && fails <= c.retries[v] && c.succeeds(v, fails)
              && forall k: nat :: k < fails ==> !c.succeeds(v, k)
    ensures st == Pending || st == Skipped ==> wins == 0 && fails == 0
    ensures st == Running ==>
              wins == 0 && fails <= (if c.retries[v] >= 0 then c.retries[v] + 1 else 0)
              && forall k: nat :: k < fails ==> !c.succeeds(v, k)
  {
    InitInv(c);
    fails, wins := RunTracked(c, Init(c), events, v, 0, 0);
    var s := After(c, Init(c), events);
    SpentSpelled(c, s, v, fails, wins);
    st := s.status[v];
  }
}
