/** The planner budget of `zilli/envs/planner_budget.py` and the way the concurrent routes of
    `zilli/routing/router.py` use it: check, plan, record, execute, record. */
module PlannerBudgets {
  import opened Common

  datatype Role = Planner | Executor

  function Planners(calls: seq<Role>): nat {
    if calls == [] then 0 else
      Planners(calls[..|calls| - 1]) + (if calls[|calls| - 1] == Planner then 1 else 0)
  }

  /** What a deque of capacity `size` keeps of everything appended to it. */
  function Window(history: seq<Role>, size: nat): seq<Role> {
    if |history| <= size then history else history[|history| - size..]
  }

  /** Those are the last ones. */
  lemma WindowIs(history: seq<Role>, size: nat)
    ensures var w := Window(history, size);
            && |w| == (if |history| <= size then |history| else size)
            && forall k :: 0 <= k < |w| ==> w[k] == history[|history| - |w| + k]
  {
  }

  function Recorded(calls: seq<Role>, role: Role, size: nat): seq<Role> {
    Window(calls + [role], size)
  }

  /** n times the ratio, as a sum: the proofs below need no multiplication. */
  function Share(ratio: real, n: nat): real {
    if n == 0 then 0.0 else Share(ratio, n - 1) + ratio
  }

  lemma {:induction false} ShareIs(ratio: real, n: nat)
    ensures Share(ratio, n) == ratio * n as real
  {
    if n > 0 {
      ShareIs(ratio, n - 1);
    }
  }

  lemma {:induction false} ShareAdds(ratio: real, n: nat, m: nat)
    ensures Share(ratio, n + m) == Share(ratio, n) + Share(ratio, m)
  {
    if m > 0 { ShareAdds(ratio, n, m - 1); }
  }

  lemma {:induction false} ShareGrows(ratio: real, n: nat, m: nat)
    requires ratio >= 0.0 && n <= m
    ensures Share(ratio, n) <= Share(ratio, m)
  {
    if n < m { ShareGrows(ratio, n, m - 1); }
  }

  /** The planner's share of the calls is below the limit, or there are none. */
  predicate MayPlan(calls: seq<Role>, maxRatio: real) {
    calls == [] || Planners(calls) as real < Share(maxRatio, |calls|)
  }

  lemma {:induction false} PlannersConcat(a: seq<Role>, b: seq<Role>)
    ensures Planners(a + b) == Planners(a) + Planners(b)
  {
    if b == [] {
      assert a + b == a;
    } else {
      assert (a + b)[..|a + b| - 1] == a + b[..|b| - 1];
      PlannersConcat(a, b[..|b| - 1]);
    }
  }

  /** The number of planner calls. */
  lemma {:induction false} PlannersAre(calls: seq<Role>)
    ensures Planners(calls) == |set i | 0 <= i < |calls| && calls[i] == Planner|
  {
    if calls != [] {
      var n := |calls| - 1;
      var rest := calls[..n];
      PlannersAre(rest);
      assert (set i | 0 <= i < |calls| && calls[i] == Planner)
          == (set i | 0 <= i < |rest| && rest[i] == Planner) + (if calls[n] == Planner then {n} else {});
    }
  }

  lemma {:induction false} PlannersAtMost(calls: seq<Role>)
    ensures Planners(calls) <= |calls|
  {
    if calls != [] { PlannersAtMost(calls[..|calls| - 1]); }
  }

  /** Keeping only the window of the window and the new call is keeping the window of all. */
  lemma WindowOfAll(history: seq<Role>, role: Role, size: nat)
    ensures Recorded(Window(history, size), role, size) == Window(history + [role], size)
  {
  }

  class PlannerBudget {
    var calls: seq<Role>
    ghost var history: seq<Role>
    const windowSize: nat
    const maxRatio: real

    ghost predicate Valid()
      reads this
    {
      calls == Window(history, windowSize)
    }

    constructor (windowSize: nat, maxRatio: real)
      ensures Valid() && history == [] && this.windowSize == windowSize && this.maxRatio == maxRatio
    {
      calls, history := [], [];
      this.windowSize, this.maxRatio := windowSize, maxRatio;
    }

    method RecordCall(role: Role)
      requires Valid()
      modifies this
      ensures Valid() && history == old(history) + [role]
      ensures calls == Recorded(old(calls), role, windowSize)
    {
      WindowOfAll(history, role, windowSize);
      calls := calls + [role];
      if |calls| > windowSize { calls := calls[|calls| - windowSize..]; }
      history := history + [role];
    }

    method MayUsePlanner() returns (ok: bool)
      requires Valid()
      ensures ok <==> MayPlan(Window(history, windowSize), maxRatio)
    {
      if calls == [] { return true; }
      var planners := CountPlanners(calls);
      ok := RatioBelow(planners, |calls|, maxRatio);
    }
  }

  method CountPlanners(calls: seq<Role>) returns (planners: nat)
    ensures planners == Planners(calls)
  {
    planners := 0;
    for i := 0 to |calls|
      invariant planners == Planners(calls[..i])
    {
      assert calls[..i + 1][..i] == calls[..i];
      if calls[i] == Planner { planners := planners + 1; }
    }
    assert calls[..|calls|] == calls;
  }

  method RatioBelow(planners: nat, total: nat, maxRatio: real) returns (ok: bool)
    requires total > 0
    ensures ok <==> planners as real < Share(maxRatio, total)
  {
    ShareIs(maxRatio, total);
    ShareBelow(planners as real, total as real, maxRatio);
    var ratio := planners as real / total as real;
    ok := !(ratio >= maxRatio);
  }

  lemma ShareBelow(x: real, n: real, ratio: real)
    requires n > 0.0
    ensures x / n < ratio <==> x < ratio * n
  {
    var q := x / n;
    assert q * n == x;
    assert q < ratio ==> (ratio - q) * n > 0.0;
    assert q > ratio ==> (q - ratio) * n > 0.0;
  }

  /** The planner is free while there are no calls, or its share of them is below the ratio. */
  lemma MayPlanIff(calls: seq<Role>, maxRatio: real)
    ensures MayPlan(calls, maxRatio)
       <==> calls == [] || |set i | 0 <= i < |calls| && calls[i] == Planner| as real / |calls| as real < maxRatio
  {
    PlannersAre(calls);
    ShareIs(maxRatio, |calls|);
    if calls != [] { ShareBelow(Planners(calls) as real, |calls| as real, maxRatio); }
  }

  // ----- the routes in flight -----

  /** Where a route is waiting: on a direct answer, on a direct answer because the planner was
      refused, on its plan, on the executor, or on the review. */
  datatype Stage = Answering | FallingBack | Planning | Executing | Reviewing

  datatype State = State(history: seq<Role>, routes: map<nat, Stage>)

  datatype Limits = Limits(size: nat, maxRatio: real, routes: nat)

  datatype Event =
    | Begin(route: nat, full: bool)
    | Finish(route: nat, ok: bool)

  const INIT := State([], map[])

  predicate Enabled(l: Limits, s: State, e: Event) {
    match e
    case Begin(r, _) => r !in s.routes && |s.routes| < l.routes
    case Finish(r, _) => r in s.routes
  }

  function Moved(s: State, r: nat, stage: Stage): State {
    s.(routes := s.routes[r := stage])
  }

  function Ended(s: State, r: nat): State {
    s.(routes := s.routes - {r})
  }

  function Record(s: State, role: Role): State {
    s.(history := s.history + [role])
  }

  /** A route begins by asking the budget, or one call of a route finishes; a failed planner or
      executor call raises, and then nothing is recorded and the route is over. */
  function Apply(l: Limits, s: State, e: Event): State
    requires Enabled(l, s, e)
  {
    match e
    case Begin(r, full) =>
      Moved(s, r, FirstStage(s.history, l.size, l.maxRatio, full))
    case Finish(r, ok) =>
      match s.routes[r]
      case Answering => Ended(s, r)
      case FallingBack => if ok then Ended(Record(s, Executor), r) else Ended(s, r)
      case Planning => if ok then Moved(Record(s, Planner), r, Executing) else Ended(s, r)
      case Executing => if ok then Moved(Record(s, Executor), r, Reviewing) else Ended(s, r)
      case Reviewing => Ended(s, r)
  }

  ghost predicate IsRun(l: Limits, s: State, events: seq<Event>)
    decreases |events|
  {
    events == [] || (Enabled(l, s, events[0]) && IsRun(l, Apply(l, s, events[0]), events[1..]))
  }

  ghost function After(l: Limits, s: State, events: seq<Event>): State
    requires IsRun(l, s, events)
    decreases |events|
  {
    if events == [] then s else After(l, Apply(l, s, events[0]), events[1..])
  }

  /** The routes that were let through to the planner and have not recorded the call yet. */
  function Admitted(routes: map<nat, Stage>): set<nat> {
    set r | r in routes && routes[r] == Planning
  }

  function Budgeted(l: Limits, length: nat): real {
    Share(l.maxRatio, length) + l.routes as real
  }

  /** The window, with the calls still to be recorded, is over the budget by at most one call
      per route in flight. */
  ghost predicate WithinBudget(l: Limits, s: State) {
    var w := Window(s.history, l.size);
    (Planners(w) + |Admitted(s.routes)|) as real <= Budgeted(l, |w|)
  }

  /** And so was the window after each call recorded so far. */
  ghost predicate EverWithin(l: Limits, history: seq<Role>) {
    forall k :: 0 <= k <= |history| ==> WindowWithin(l, history[..k])
  }

  ghost predicate WindowWithin(l: Limits, history: seq<Role>) {
    var w := Window(history, l.size);
    Planners(w) as real <= Budgeted(l, |w|)
  }

  ghost predicate Inv(l: Limits, s: State) {
    |s.routes| <= l.routes && WithinBudget(l, s) && EverWithin(l, s.history)
  }

  lemma InitInv(l: Limits)
    requires l.maxRatio >= 0.0
    ensures Inv(l, INIT)
  {
    assert Admitted(INIT.routes) == {};
    assert INIT.history[..0] == [];
  }

  lemma AdmittedAtMost(routes: map<nat, Stage>)
    ensures |Admitted(routes)| <= |routes|
  {
    SubsetCount(Admitted(routes), routes.Keys);
  }

  /** Recording a call, with a planner call traded for an admitted route. */
  lemma RecordKeeps(l: Limits, history: seq<Role>, role: Role, admitted: nat, admitted': nat)
    requires l.maxRatio >= 0.0
    requires var w := Window(history, l.size); (Planners(w) + admitted) as real <= Budgeted(l, |w|)
    requires admitted' + (if role == Planner then 1 else 0) <= admitted
    ensures var w := Window(history + [role], l.size); (Planners(w) + admitted') as real <= Budgeted(l, |w|)
  {
    var w, all := Window(history, l.size), Window(history, l.size) + [role];
    WindowOfAll(history, role, l.size);
    PlannersConcat(w, [role]);
    assert all[..|all| - 1] == w;
    var w' := Window(all, l.size);
    if |all| > l.size {
      assert all == all[..|all| - l.size] + w';
      PlannersConcat(all[..|all| - l.size], w');
    }
    assert |w| <= |w'|;
    ShareGrows(l.maxRatio, |w|, |w'|);
  }

  lemma EverRecorded(l: Limits, history: seq<Role>, role: Role)
    requires EverWithin(l, history) && WindowWithin(l, history + [role])
    ensures EverWithin(l, history + [role])
  {
    var h := history + [role];
    forall k | 0 <= k <= |h| ensures WindowWithin(l, h[..k]) {
      if k <= |history| { assert h[..k] == history[..k]; } else { assert h[..k] == h; }
    }
  }

  /** One event keeps the budget. */
  lemma EventInv(l: Limits, s: State, e: Event)
    requires l.maxRatio >= 0.0 && Inv(l, s) && Enabled(l, s, e)
    ensures Inv(l, Apply(l, s, e))
  {
    match e
    case Begin(r, full) => BeginInv(l, s, r, full);
    case Finish(r, ok) => FinishInv(l, s, r, ok);
  }

  lemma BeginInv(l: Limits, s: State, r: nat, full: bool)
    requires l.maxRatio >= 0.0 && Inv(l, s) && Enabled(l, s, Begin(r, full))
    ensures Inv(l, Apply(l, s, Begin(r, full)))
  {
    var s' := Apply(l, s, Begin(r, full));
    assert s'.routes.Keys == s.routes.Keys + {r};
    if s'.routes[r] == Planning {
      AdmittedAtMost(s'.routes);
    } else {
      assert Admitted(s'.routes) == Admitted(s.routes);
    }
  }

  /** Finishing a call leaves no more routes in flight, and this one is admitted no longer. */
  lemma FinishRoutes(l: Limits, s: State, r: nat, ok: bool)
    requires r in s.routes
    ensures var s' := Apply(l, s, Finish(r, ok));
            |s'.routes| <= |s.routes| && Admitted(s'.routes) == Admitted(s.routes) - {r}
  {
    var s' := Apply(l, s, Finish(r, ok));
    assert s'.routes.Keys == s.routes.Keys || s'.routes.Keys == s.routes.Keys - {r};
  }

  lemma FinishInv(l: Limits, s: State, r: nat, ok: bool)
    requires l.maxRatio >= 0.0 && Inv(l, s) && r in s.routes
    ensures Inv(l, Apply(l, s, Finish(r, ok)))
  {
    var s' := Apply(l, s, Finish(r, ok));
    FinishRoutes(l, s, r, ok);
    if s'.history != s.history {
      var role := if s.routes[r] == Planning then Planner else Executor;
      RecordKeeps(l, s.history, role, |Admitted(s.routes)|, |Admitted(s'.routes)|);
      EverRecorded(l, s.history, role);
    }
  }

  lemma {:induction false} RunInv(l: Limits, s: State, events: seq<Event>)
    requires l.maxRatio >= 0.0 && Inv(l, s) && IsRun(l, s, events)
    ensures Inv(l, After(l, s, events))
    decreases |events|
  {
    if events != [] {
      EventInv(l, s, events[0]);
      RunInv(l, Apply(l, s, events[0]), events[1..]);
    }
  }

  /** In every reachable state the planner calls in the window and those still to come are at
      most maxRatio times the window and one for each route that may be in flight. */
  lemma BudgetKept(l: Limits, events: seq<Event>)
    requires l.maxRatio >= 0.0 && IsRun(l, INIT, events)
    ensures WithinBudget(l, After(l, INIT, events))
  {
    InitInv(l);
    RunInv(l, INIT, events);
  }

  function Windows(n: nat, size: nat): nat
    requires size > 0
  {
    if n == 0 then 0 else if n <= size then 1 else 1 + Windows(n - size, size)
  }

  /** The budgets of successive windowfuls of n calls. */
  ghost function TotalBudget(l: Limits, n: nat): real
    requires l.size > 0
  {
    if n == 0 then 0.0
    else if n <= l.size then Budgeted(l, n)
    else TotalBudget(l, n - l.size) + Budgeted(l, l.size)
  }

  /** That is the limit's share of n calls, and for each windowful one call for each route. */
  lemma {:induction false} TotalBudgetIs(l: Limits, n: nat)
    requires l.size > 0
    ensures TotalBudget(l, n) == Share(l.maxRatio, n) + Share(l.routes as real, Windows(n, l.size))
  {
    if n > l.size {
      TotalBudgetIs(l, n - l.size);
      ShareAdds(l.maxRatio, n - l.size, l.size);
    } else if n > 0 {
      assert Share(l.routes as real, 1) == Share(l.routes as real, 0) + l.routes as real;
    }
  }

  ghost predicate TotalWithin(l: Limits, h: seq<Role>)
    requires l.size > 0
  {
    Planners(h) as real <= Share(l.maxRatio, |h|) + Share(l.routes as real, Windows(|h|, l.size))
  }

  lemma TotalOf(l: Limits, h: seq<Role>)
    requires l.size > 0 && EverWithin(l, h)
    ensures TotalWithin(l, h)
  {
    HistoryBounded(l, h);
    TotalBudgetIs(l, |h|);
  }

  /** Over a whole run, however long. */
  lemma TotalBounded(l: Limits, events: seq<Event>)
    requires l.maxRatio >= 0.0 && l.size > 0 && IsRun(l, INIT, events)
    ensures TotalWithin(l, After(l, INIT, events).history)
  {
    InitInv(l);
    RunInv(l, INIT, events);
    TotalOf(l, After(l, INIT, events).history);
  }

  lemma {:induction false} HistoryBounded(l: Limits, h: seq<Role>)
    requires l.size > 0 && EverWithin(l, h)
    ensures Planners(h) as real <= TotalBudget(l, |h|)
    decreases |h|
  {
    assert h[..|h|] == h;
    assert WindowWithin(l, h);
    if |h| > l.size {
      var before, w := h[..|h| - l.size], Window(h, l.size);
      assert h == before + w;
      EverBefore(l, before, w);
      HistoryBounded(l, before);
      PlannersConcat(before, w);
    }
  }

  lemma EverBefore(l: Limits, before: seq<Role>, w: seq<Role>)
    requires EverWithin(l, before + w)
    ensures EverWithin(l, before)
  {
    forall k | 0 <= k <= |before| ensures WindowWithin(l, before[..k]) {
      assert WindowWithin(l, (before + w)[..k]);
      assert before[..k] == (before + w)[..k];
    }
  }

  // ----- the configured ratio itself -----

  ghost predicate RatioKept(l: Limits, events: seq<Event>)
    requires IsRun(l, INIT, events)
  {
    var w := Window(After(l, INIT, events).history, l.size);
    Planners(w) as real <= Share(l.maxRatio, |w|)
  }

  /** The window never exceeds the configured ratio itself exactly when that ratio forbids
      nothing, or nothing is ever recorded. */
  lemma RatioKeptIff(l: Limits)
    requires l.maxRatio >= 0.0
    ensures (forall events :: IsRun(l, INIT, events) ==> RatioKept(l, events))
       <==> (l.maxRatio >= 1.0 || l.size == 0 || l.routes == 0)
  {
    if l.maxRatio >= 1.0 || l.size == 0 {
      forall events | IsRun(l, INIT, events) ensures RatioKept(l, events) {
        var w := Window(After(l, INIT, events).history, l.size);
        PlannersAtMost(w);
        if l.maxRatio >= 1.0 { ShareAtLeast(l.maxRatio, |w|); }
      }
    } else if l.routes == 0 {
      forall events | IsRun(l, INIT, events) ensures RatioKept(l, events) {
        BudgetKept(l, events);
        var s := After(l, INIT, events);
      }
    } else {
      FirstCallExceeds(l);
    }
  }

  lemma {:induction false} ShareAtLeast(ratio: real, n: nat)
    requires ratio >= 1.0
    ensures Share(ratio, n) >= n as real
  {
    if n > 0 { ShareAtLeast(ratio, n - 1); }
  }

  lemma FirstCallExceeds(l: Limits)
    requires 0.0 <= l.maxRatio < 1.0 && l.size > 0 && l.routes > 0
    ensures var events := [Begin(0, true), Finish(0, true)]; IsRun(l, INIT, events) && !RatioKept(l, events)
  {
    var events := [Begin(0, true), Finish(0, true)];
    var s1 := Apply(l, INIT, events[0]);
    var s2 := Apply(l, s1, events[1]);
    assert events[1..][1..] == [];
    assert IsRun(l, s2, []) && IsRun(l, s1, events[1..]);
    assert s2.history == [Planner] && Planners([Planner]) == 1;
    assert Share(l.maxRatio, 1) == Share(l.maxRatio, 0) + l.maxRatio;
  }

  /** A refused planner comes back: after a windowful of executor calls it is free again
      exactly when the ratio is positive or the budget remembers nothing. */
  lemma Recovers(history: seq<Role>, calls: seq<Role>, size: nat, maxRatio: real)
    requires |calls| >= size && forall i :: 0 <= i < |calls| ==> calls[i] == Executor
    ensures MayPlan(Window(history + calls, size), maxRatio) <==> maxRatio > 0.0 || size == 0
  {
    var w := Window(history + calls, size);
    NoPlanners(w);
    ShareIs(maxRatio, |w|);
  }

  lemma {:induction false} NoPlanners(calls: seq<Role>)
    requires forall i :: 0 <= i < |calls| ==> calls[i] == Executor
    ensures Planners(calls) == 0
  {
    if calls != [] { NoPlanners(calls[..|calls| - 1]); }
  }

  // ----- one route on its own -----

  /** How the calls of one route turn out. */
  datatype Fate = Fate(planned: bool, executed: bool)

  function FinishesOf(stage: Stage, fate: Fate): seq<Event>
    decreases match stage case Planning => 2 case Executing => 1 case _ => 0
  {
    match stage
    case Planning => [Finish(0, fate.planned)] + (if fate.planned then FinishesOf(Executing, fate) else [])
    case Executing => [Finish(0, fate.executed)] + (if fate.executed then [Finish(0, true)] else [])
    case _ => [Finish(0, fate.executed)]
  }

  class LocalHybridRouter {
    const budget: PlannerBudget

    constructor (budget: PlannerBudget)
      ensures this.budget == budget
    {
      this.budget := budget;
    }

    /** One route with no other in flight. */
    method Run(full: bool, fate: Fate)
      requires budget.Valid()
      modifies budget
      ensures budget.Valid()
      ensures var stage := FirstStage(old(budget.history), budget.windowSize, budget.maxRatio, full);
              budget.history == old(budget.history) + CallsOf(stage, fate)
    {
      if !full { return; }
      var ok := budget.MayUsePlanner();
      if !ok {
        if fate.executed { budget.RecordCall(Executor); }
        return;
      }
      if !fate.planned { return; }
      budget.RecordCall(Planner);
      if !fate.executed { return; }
      budget.RecordCall(Executor);
    }
  }

  function FirstStage(history: seq<Role>, size: nat, maxRatio: real, full: bool): Stage {
    if !full then Answering else if MayPlan(Window(history, size), maxRatio) then Planning else FallingBack
  }

  /** What one undisturbed route records. */
  function CallsOf(stage: Stage, fate: Fate): seq<Role> {
    match stage
    case FallingBack => if fate.executed then [Executor] else []
    case Planning => if !fate.planned then [] else if fate.executed then [Planner, Executor] else [Planner]
    case Executing => if fate.executed then [Executor] else []
    case _ => []
  }

  /** One route alone: nothing on the fast lane, an executor call that does not raise if the planner
      is refused, otherwise the planner's and then the executor's call until one raises. */
  lemma CallsSpelled(history: seq<Role>, size: nat, maxRatio: real, full: bool, fate: Fate)
    ensures var calls, free := CallsOf(FirstStage(history, size, maxRatio, full), fate),
                               MayPlan(Window(history, size), maxRatio);
            && (!full ==> calls == [])
            && (full && !free ==> calls == if fate.executed then [Executor] else [])
            && (full && free && !fate.planned ==> calls == [])
            && (full && free && fate.planned ==> calls == [Planner] + if fate.executed then [Executor] else [])
  {
  }

  /** In the protocol, a route on its own makes just the events of its stages, records the same
      calls, and leaves nothing in flight. */
  lemma OneRoute(l: Limits, s: State, stage: Stage, fate: Fate)
    requires s.routes == map[0 := stage]
    ensures var rest := FinishesOf(stage, fate);
            IsRun(l, s, rest) && After(l, s, rest) == State(s.history + CallsOf(stage, fate), map[])
    decreases match stage case Planning => 2 case Executing => 1 case _ => 0
  {
    match stage
    case Planning =>
      var e := Finish(0, fate.planned);
      if fate.planned {
        OneRoute(l, Apply(l, s, e), Executing, fate);
        FirstEvent(l, s, e, FinishesOf(Executing, fate));
      } else {
        FirstEvent(l, s, e, []);
      }
    case Executing =>
      var e := Finish(0, fate.executed);
      if fate.executed { FirstEvent(l, Apply(l, s, e), Finish(0, true), []); }
      FirstEvent(l, s, e, if fate.executed then [Finish(0, true)] else []);
    case _ => FirstEvent(l, s, Finish(0, fate.executed), []);
  }

  lemma FirstEvent(l: Limits, s: State, e: Event, rest: seq<Event>)
    requires Enabled(l, s, e) && IsRun(l, Apply(l, s, e), rest)
    ensures IsRun(l, s, [e] + rest) && After(l, s, [e] + rest) == After(l, Apply(l, s, e), rest)
  {
    assert ([e] + rest)[1..] == rest;
  }
}
