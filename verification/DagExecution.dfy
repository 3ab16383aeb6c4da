/** The concurrent executor of `zilli/dag/engine.py` as a state machine. Every point at which
    a coroutine can be suspended separates two events; events may interleave in any order. */
module DagExecution {
  import opened Common
  import opened DagGraph
  import opened TaskDag

  /** A created task: waiting for the semaphore; inside the retry loop after `tries` failed
      attempts; verdict recorded but the coroutine not yet returned; returned. */
  datatype Phase = Queued | Active(tries: nat) | Settled | Finished

  datatype ExecutionResult = ExecutionResult(node: NodeId, success: bool)

  /** What stays fixed during a run. `succeeds(v, k)` tells whether attempt k at v succeeds. */
  datatype Config = Config(g: Graph, retries: map<NodeId, int>, maxConcurrency: int,
                           succeeds: (NodeId, nat) -> bool)

  datatype State = State(
    status: Statuses, tasks: map<NodeId, Phase>, completed: set<NodeId>,
    results: seq<ExecutionResult>, waiting: bool, ended: bool)

  datatype Event =
    | Acquire(v: NodeId) | Succeed(v: NodeId) | Fail(v: NodeId) | GiveUp(v: NodeId) | Return(v: NodeId)
    | Reap(v: NodeId) | Scan

  ghost predicate ValidConfig(c: Config) {
    WellFormed(c.g) && c.retries.Keys == Elements(c.g.nodes) && c.maxConcurrency >= 0
  }

  /** The number of rounds of `range(retries + 1)`. */
  function MaxTries(c: Config, v: NodeId): nat {
    if v in c.retries && c.retries[v] >= 0 then c.retries[v] + 1 else 0
  }

  function Holders(tasks: map<NodeId, Phase>): set<NodeId> {
    set v | v in tasks && (tasks[v].Active? || tasks[v].Settled?)
  }

  ghost function Descendants(g: Graph, v: NodeId): set<NodeId> {
    set w | w in g.nodes && Reaches(g, v, w)
  }

  /** The statuses after the skip cascade from v. */
  ghost function SkipBelow(g: Graph, st: Statuses, completed: set<NodeId>, v: NodeId): Statuses {
    map w | w in st :: if w !in completed && Reaches(g, v, w) then Skipped else st[w]
  }

  ghost function Startable(c: Config, s: State): set<NodeId> {
    set v | v in c.g.nodes && v !in s.completed && v !in s.tasks && IsReady(c.g, s.status, v)
  }

  ghost function Init(c: Config): State {
    State(map v | v in Elements(c.g.nodes) :: Pending, map[], {}, [], false, false)
  }

  ghost predicate Enabled(c: Config, s: State, e: Event) {
    match e
    case Acquire(v) => v in s.tasks && s.tasks[v] == Queued && |Holders(s.tasks)| < c.maxConcurrency
    case Succeed(v) => v in s.tasks && s.tasks[v].Active? && s.tasks[v].tries < MaxTries(c, v)
                       && c.succeeds(v, s.tasks[v].tries)
    case Fail(v) => v in s.tasks && s.tasks[v].Active? && s.tasks[v].tries < MaxTries(c, v)
                    && !c.succeeds(v, s.tasks[v].tries)
    case GiveUp(v) => v in s.tasks && s.tasks[v].Active? && s.tasks[v].tries >= MaxTries(c, v)
    case Return(v) => v in s.tasks && s.tasks[v] == Settled
    case Reap(v) => v in s.tasks && s.tasks[v] == Finished
    case Scan => !s.waiting && !s.ended
  }

  ghost function Apply(c: Config, s: State, e: Event): State
    requires Enabled(c, s, e)
  {
    match e
    case Acquire(v) => s.(tasks := s.tasks[v := Active(0)], status := s.status[v := Running])
    case Succeed(v) => s.(tasks := s.tasks[v := Settled], status := s.status[v := Completed],
                          results := s.results + [ExecutionResult(v, true)])
    case Fail(v) => s.(tasks := s.tasks[v := Active(s.tasks[v].tries + 1)])
    case GiveUp(v) => s.(tasks := s.tasks[v := Settled], status := s.status[v := Failed],
                         results := s.results + [ExecutionResult(v, false)])
    case Return(v) => s.(tasks := s.tasks[v := Finished])
    case Reap(v) => ApplyReap(c, s, v)
    case Scan => ApplyScan(c, s)
  }

  /** The main loop takes a returned task off its list and, if its node failed, cascades. */
  ghost function ApplyReap(c: Config, s: State, v: NodeId): State {
    var completed := s.completed + {v};
    var failed := v in s.status && s.status[v] == Failed;
    s.(tasks := s.tasks - {v}, waiting := false,
       completed := if failed then completed + Descendants(c.g, v) else completed,
       status := if failed then SkipBelow(c.g, s.status, completed, v) else s.status)
  }

  /** One turn of the main loop up to its await: stop, or scan and create tasks, or give up. */
  ghost function ApplyScan(c: Config, s: State): State {
    if |s.completed| >= |c.g.nodes| then s.(ended := true) else
      var tasks := s.tasks + (map v | v in Startable(c, s) :: Queued);
      s.(status := Scanned(c.g, s.status), tasks := tasks, waiting := tasks != map[], ended := tasks == map[])
  }

  // ----- the invariant -----

  ghost predicate Started(s: State, v: NodeId) {
    v in s.tasks || (v in s.status && (s.status[v].Running? || s.status[v].Completed? || s.status[v].Failed?))
  }

  /** Every created task and every completed node agrees with its node's status. */
  ghost predicate Shape(c: Config, s: State) {
    && s.status.Keys == Elements(c.g.nodes)
    && s.completed <= s.status.Keys && s.tasks.Keys <= s.status.Keys && s.tasks.Keys !! s.completed
    && (forall v :: v in s.tasks && s.tasks[v].Queued? ==> s.status[v] == Pending)
    && (forall v :: v in s.tasks && s.tasks[v].Active? ==> s.status[v] == Running)
    && (forall v :: v in s.tasks && (s.tasks[v].Settled? || s.tasks[v].Finished?)
                    ==> s.status[v] == Completed || s.status[v] == Failed)
    && (forall v :: v in s.status && v !in s.tasks && v !in s.completed ==>
        s.status[v] == Pending || s.status[v] == Skipped)
    && (forall v :: v in s.completed ==> s.status[v] == Completed || s.status[v] == Failed || s.status[v] == Skipped)
  }

  /** A started node has only completed parents, and is not behind a cycle. */
  ghost predicate Grounded(c: Config, s: State) {
    && (forall v :: Started(s, v) ==> ParentsCompleted(c.g, s.status, v))
    && (forall v :: Started(s, v) ==> !AfterCycle(c.g, v))
  }

  ghost predicate AllFail(c: Config, v: NodeId, n: nat) {
    forall k: nat :: k < n ==> !c.succeeds(v, k)
  }

  /** A node succeeds by itself when some attempt within the retry budget succeeds. */
  ghost predicate CanSucceed(c: Config, v: NodeId) {
    !AllFail(c, v, MaxTries(c, v))
  }

  /** Verdicts follow the attempts actually made, of which there are at most MaxTries. */
  ghost predicate Honest(c: Config, s: State) {
    && (forall v :: v in s.tasks && s.tasks[v].Active? ==>
        s.tasks[v].tries <= MaxTries(c, v) && AllFail(c, v, s.tasks[v].tries))
    && (forall v :: v in s.status && s.status[v] == Completed ==> CanSucceed(c, v))
    && (forall v :: v in s.status && s.status[v] == Failed ==> !CanSucceed(c, v))
  }

  ghost predicate FailedAncestor(g: Graph, st: Statuses, v: NodeId) {
    exists a :: a in st && st[a] == Failed && Reaches(g, a, v)
  }

  /** Only descendants of failed nodes are skipped; everything below a completed node that
      failed or was skipped is completed as well. */
  ghost predicate Swept(c: Config, s: State) {
    && (forall v :: v in s.status && s.status[v] == Skipped ==> FailedAncestor(c.g, s.status, v))
    && SweptBelow(c, s)
  }

  ghost predicate SweptBelow(c: Config, s: State) {
    forall v :: v in s.completed && v in s.status && (s.status[v] == Failed || s.status[v] == Skipped) ==>
      Descendants(c.g, v) <= s.completed
  }

  /** Exactly one result for each node with a verdict, and none for any other. */
  ghost predicate Reported(s: State) {
    && (forall i, j :: 0 <= i < j < |s.results| ==> s.results[i].node != s.results[j].node)
    && (forall r :: r in s.results ==>
        r.node in s.status && s.status[r.node] == if r.success then Completed else Failed)
    && (forall v :: v in s.status && s.status[v] == Completed ==> ExecutionResult(v, true) in s.results)
    && (forall v :: v in s.status && s.status[v] == Failed ==> ExecutionResult(v, false) in s.results)
  }

  ghost predicate Control(c: Config, s: State) {
    && |Holders(s.tasks)| <= c.maxConcurrency
    && (s.waiting ==> s.tasks != map[] && !s.ended)
    && (s.ended ==> s.tasks == map[])
    && (s.ended ==> (forall v :: v in s.status && v !in s.completed ==> !IsReady(c.g, s.status, v)))
  }

  ghost predicate Inv(c: Config, s: State) {
    Shape(c, s) && Grounded(c, s) && Honest(c, s) && Swept(c, s) && Reported(s) && Control(c, s)
  }

  // ----- what the invariant says about ancestors -----

  lemma {:induction false} PathCompleted(c: Config, s: State, p: seq<NodeId>)
    requires ValidConfig(c) && Grounded(c, s) && IsPath(c.g, p) && |p| >= 2 && Started(s, p[|p| - 1])
    ensures p[0] in s.status && s.status[p[0]] == Completed
    decreases |p|
  {
    assert Edge(p[(|p| - 1) - 1], p[|p| - 1]) in c.g.edges;
    if |p| > 2 {
      SubPath(c.g, p, 0, |p| - 1);
      PathCompleted(c, s, p[0..|p| - 1]);
    }
  }

  /** All proper ancestors of a started node are completed. */
  lemma AncestorsCompleted(c: Config, s: State, u: NodeId, v: NodeId)
    requires ValidConfig(c) && Grounded(c, s) && Started(s, v) && Reaches(c.g, u, v)
    ensures u in s.status && s.status[u] == Completed
  {
    var p :| PathFromTo(c.g, p, u, v) && |p| >= 2;
    PathCompleted(c, s, p);
  }

  lemma BelowFailedUnstarted(c: Config, s: State, u: NodeId)
    requires ValidConfig(c) && Grounded(c, s) && u in s.status && s.status[u] == Failed
    ensures forall v :: Reaches(c.g, u, v) ==> !Started(s, v)
  {
    forall v | Reaches(c.g, u, v) ensures !Started(s, v) {
      if Started(s, v) { AncestorsCompleted(c, s, u, v); }
    }
  }

  lemma ReachesNode(g: Graph, u: NodeId, v: NodeId)
    requires WellFormed(g) && Reaches(g, u, v)
    ensures u in g.nodes && v in g.nodes
  {
    var p :| PathFromTo(g, p, u, v) && |p| >= 2;
    PathNodes(g, p);
  }

  // ----- preservation -----

  lemma InitInv(c: Config)
    requires ValidConfig(c)
    ensures Inv(c, Init(c))
  {
    assert Holders(Init(c).tasks) == {};
  }

  /** The effect of the five task events: only v's task, status and result change. */
  ghost function Moved(s: State, v: NodeId, phase: Phase, st: NodeStatus, news: seq<ExecutionResult>): State {
    s.(tasks := s.tasks[v := phase], status := s.status[v := st], results := s.results + news)
  }

  ghost predicate Matches(phase: Phase, st: NodeStatus) {
    match phase
    case Queued => st == Pending
    case Active(_) => st == Running
    case _ => st == Completed || st == Failed
  }

  ghost predicate CanMove(s: State, v: NodeId, phase: Phase, st: NodeStatus) {
    && v in s.tasks && v in s.status && Matches(phase, st)
    && (s.status[v] == Completed || s.status[v] == Failed ==> st == s.status[v])
  }

  lemma MovedShape(c: Config, s: State, v: NodeId, phase: Phase, st: NodeStatus, news: seq<ExecutionResult>)
    requires Shape(c, s) && CanMove(s, v, phase, st)
    ensures Shape(c, Moved(s, v, phase, st, news))
  {
  }

  lemma KeepsParents(c: Config, s: State, s': State)
    requires s.status.Keys == s'.status.Keys
    requires forall u :: u in s.status && s.status[u] == Completed ==> s'.status[u] == Completed
    ensures forall v :: ParentsCompleted(c.g, s.status, v) ==> ParentsCompleted(c.g, s'.status, v)
  {
  }

  lemma KeepsFailed(c: Config, s: State, s': State)
    requires s.status.Keys == s'.status.Keys
    requires forall u :: u in s.status && s.status[u] == Failed ==> s'.status[u] == Failed
    ensures forall v :: FailedAncestor(c.g, s.status, v) ==> FailedAncestor(c.g, s'.status, v)
  {
  }

  lemma MovedGrounded(c: Config, s: State, v: NodeId, phase: Phase, st: NodeStatus, news: seq<ExecutionResult>)
    requires Shape(c, s) && Grounded(c, s) && CanMove(s, v, phase, st)
    ensures Grounded(c, Moved(s, v, phase, st, news))
  {
    var s' := Moved(s, v, phase, st, news);
    assert s'.status.Keys == s.status.Keys;
    KeepsParents(c, s, s');
    assert forall w :: Started(s', w) ==> Started(s, w);
  }

  lemma MovedSwept(c: Config, s: State, v: NodeId, phase: Phase, st: NodeStatus, news: seq<ExecutionResult>)
    requires Shape(c, s) && Swept(c, s) && CanMove(s, v, phase, st)
    ensures Swept(c, Moved(s, v, phase, st, news))
  {
    var s' := Moved(s, v, phase, st, news);
    assert s'.status.Keys == s.status.Keys;
    KeepsFailed(c, s, s');
    assert v !in s.completed;
  }

  lemma MovedReported(s: State, v: NodeId, phase: Phase, st: NodeStatus, news: seq<ExecutionResult>)
    requires Reported(s) && CanMove(s, v, phase, st)
    requires if s.status[v] == st || st == Running then news == []
             else news == [ExecutionResult(v, st == Completed)] && (st == Completed || st == Failed)
    ensures Reported(Moved(s, v, phase, st, news))
  {
    var s' := Moved(s, v, phase, st, news);
    if news != [] {
      assert forall r :: r in s.results ==> r.node != v;
      assert forall r :: r in s'.results <==> r in s.results || r == news[0];
    } else {
      assert s'.results == s.results;
    }
  }

  lemma MovedControl(c: Config, s: State, v: NodeId, phase: Phase, st: NodeStatus, news: seq<ExecutionResult>)
    requires Control(c, s) && v in s.tasks
    requires phase.Queued? || phase.Finished? || s.tasks[v].Active? || s.tasks[v].Settled? ||
             |Holders(s.tasks)| < c.maxConcurrency
    ensures Control(c, Moved(s, v, phase, st, news))
  {
    var s' := Moved(s, v, phase, st, news);
    assert Holders(s'.tasks) <= Holders(s.tasks) + {v};
    if v in Holders(s.tasks) || v !in Holders(s'.tasks) {
      assert Holders(s'.tasks) <= Holders(s.tasks);
      SubsetCount(Holders(s'.tasks), Holders(s.tasks));
    } else {
      SubsetCount(Holders(s'.tasks), Holders(s.tasks) + {v});
    }
    assert v in s'.tasks;
  }

  lemma MovedInv(c: Config, s: State, v: NodeId, phase: Phase, st: NodeStatus, news: seq<ExecutionResult>)
    requires Inv(c, s) && CanMove(s, v, phase, st)
    requires phase.Active? ==> phase.tries <= MaxTries(c, v) && AllFail(c, v, phase.tries)
    requires st == Completed ==> CanSucceed(c, v)
    requires st == Failed ==> !CanSucceed(c, v)
    requires if s.status[v] == st || st == Running then news == []
             else news == [ExecutionResult(v, st == Completed)] && (st == Completed || st == Failed)
    requires phase.Finished? || s.tasks[v].Active? || s.tasks[v].Settled? || |Holders(s.tasks)| < c.maxConcurrency
    ensures Inv(c, Moved(s, v, phase, st, news))
  {
    MovedShape(c, s, v, phase, st, news);
    MovedGrounded(c, s, v, phase, st, news);
    MovedSwept(c, s, v, phase, st, news);
    MovedReported(s, v, phase, st, news);
    MovedControl(c, s, v, phase, st, news);
  }

  /** A task event, seen as a move. */
  lemma EventAsMove(c: Config, s: State, e: Event) returns (phase: Phase, st: NodeStatus, news: seq<ExecutionResult>)
    requires Shape(c, s) && Honest(c, s) && Enabled(c, s, e) && !e.Reap? && !e.Scan?
    ensures Apply(c, s, e) == Moved(s, e.v, phase, st, news)
    ensures CanMove(s, e.v, phase, st)
    ensures phase.Active? ==> phase.tries <= MaxTries(c, e.v) && AllFail(c, e.v, phase.tries)
    ensures st == Completed ==> CanSucceed(c, e.v)
    ensures st == Failed ==> !CanSucceed(c, e.v)
    ensures if s.status[e.v] == st || st == Running then news == []
            else news == [ExecutionResult(e.v, st == Completed)] && (st == Completed || st == Failed)
    ensures phase.Finished? || s.tasks[e.v].Active? || s.tasks[e.v].Settled? || |Holders(s.tasks)| < c.maxConcurrency
  {
    var v := e.v;
    assert s.status[v := s.status[v]] == s.status;
    assert s.results + [] == s.results;
    match e
    case Acquire(_) => phase, st, news := Active(0), Running, [];
    case Succeed(_) => phase, st, news := Settled, Completed, [ExecutionResult(v, true)];
    case GiveUp(_) => phase, st, news := Settled, Failed, [ExecutionResult(v, false)];
    case Fail(_) => phase, st, news := Active(s.tasks[v].tries + 1), Running, [];
    case Return(_) => phase, st, news := Finished, s.status[v], [];
  }

  lemma TaskEventInv(c: Config, s: State, e: Event)
    requires Inv(c, s) && Enabled(c, s, e) && !e.Reap? && !e.Scan?
    ensures Inv(c, Apply(c, s, e))
  {
    var phase, st, news := EventAsMove(c, s, e);
    MovedInv(c, s, e.v, phase, st, news);
  }

  // ----- reaping -----

  lemma ReapChanges(c: Config, s: State, v: NodeId)
    requires ValidConfig(c) && Shape(c, s) && Grounded(c, s) && Enabled(c, s, Reap(v))
    ensures var s' := ApplyReap(c, s, v);
            && s'.status.Keys == s.status.Keys && s'.results == s.results && s'.tasks == s.tasks - {v}
            && (forall w :: w in s.status && s'.status[w] != s.status[w]
                  ==> s'.status[w] == Skipped && s.status[w] == Pending && w !in s.tasks && w in s'.completed
                      && s.status[v] == Failed && Reaches(c.g, v, w))
            && s.completed + {v} <= s'.completed <= s.status.Keys
            && (forall w :: w in s'.completed ==> w == v || w in s.completed || s'.status[w] == Skipped)
  {
    if s.status[v] == Failed {
      BelowFailedUnstarted(c, s, v);
      forall w | Reaches(c.g, v, w) ensures w in s.status && !Started(s, w) {
        ReachesNode(c.g, v, w);
      }
    }
  }

  lemma ReapInv(c: Config, s: State, v: NodeId)
    requires ValidConfig(c) && Inv(c, s) && Enabled(c, s, Reap(v))
    ensures Inv(c, ApplyReap(c, s, v))
  {
    var s' := ApplyReap(c, s, v);
    ReapChanges(c, s, v);
    ReapShape(c, s, s', v);
    ReapRest(c, s, s', v);
    ReapSwept(c, s, v);
    ReapControl(c, s, v);
  }

  lemma ReapControl(c: Config, s: State, v: NodeId)
    requires Control(c, s) && Enabled(c, s, Reap(v))
    ensures Control(c, ApplyReap(c, s, v))
  {
    assert Holders(s.tasks - {v}) == Holders(s.tasks);
  }

  lemma ReapRest(c: Config, s: State, s': State, v: NodeId)
    requires Grounded(c, s) && Honest(c, s) && Reported(s)
    requires s'.status.Keys == s.status.Keys && s'.tasks == s.tasks - {v} && s'.results == s.results
    requires forall w :: w in s.status && s'.status[w] != s.status[w] ==>
               s'.status[w] == Skipped && s.status[w] == Pending
    ensures Grounded(c, s') && Honest(c, s') && Reported(s')
  {
    KeepsParents(c, s, s');
    assert forall w :: Started(s', w) ==> Started(s, w);
  }

  lemma ReapShape(c: Config, s: State, s': State, v: NodeId)
    requires Shape(c, s) && Enabled(c, s, Reap(v))
    requires s'.status.Keys == s.status.Keys && s'.tasks == s.tasks - {v}
    requires forall w :: w in s.status && s'.status[w] != s.status[w]
               ==> s'.status[w] == Skipped && w !in s.tasks && w in s'.completed
    requires s.completed + {v} <= s'.completed <= s.status.Keys
    requires forall w :: w in s'.completed ==> w == v || w in s.completed || s'.status[w] == Skipped
    ensures Shape(c, s')
  {
    assert forall w :: w in s.tasks ==> s.status[w] != Skipped;
    assert forall w :: w in s'.tasks ==> s'.status[w] == s.status[w];
  }

  lemma ReapSwept(c: Config, s: State, v: NodeId)
    requires ValidConfig(c) && Shape(c, s) && Grounded(c, s) && Swept(c, s) && Enabled(c, s, Reap(v))
    ensures Swept(c, ApplyReap(c, s, v))
  {
    var s' := ApplyReap(c, s, v);
    ReapChanges(c, s, v);
    KeepsFailed(c, s, s');
    ReapClosed(c, s, v);
    forall w | w in s'.status && s'.status[w] == Skipped ensures FailedAncestor(c.g, s'.status, w) {
      if s.status[w] != Skipped { assert s'.status[v] == Failed && Reaches(c.g, v, w); }
    }
  }

  /** Below a failed or skipped node that is completed, everything is. */
  lemma ReapClosed(c: Config, s: State, v: NodeId)
    requires ValidConfig(c) && Shape(c, s) && Grounded(c, s) && Swept(c, s) && Enabled(c, s, Reap(v))
    ensures SweptBelow(c, ApplyReap(c, s, v))
  {
    var s' := ApplyReap(c, s, v);
    ReapChanges(c, s, v);
    forall w, x | w in s'.completed && w in s'.status && (s'.status[w] == Failed || s'.status[w] == Skipped)
               && x in Descendants(c.g, w)
      ensures x in s'.completed
    {
      if w in s.completed {
        assert Descendants(c.g, w) <= s.completed;
      } else if w != v {
        ReachesTransitive(c.g, v, w, x);
      }
    }
  }

  // ----- scanning -----

  lemma ScanInv(c: Config, s: State)
    requires ValidConfig(c) && Inv(c, s) && Enabled(c, s, Scan)
    ensures Inv(c, ApplyScan(c, s))
  {
    if |s.completed| >= |c.g.nodes| {
      DistinctCount(c.g.nodes);
      SubsetCount(s.completed, Elements(c.g.nodes));
    } else {
      ScanGrounded(c, s);
      ScanSwept(c, s);
      ScanControl(c, s);
      ScanShape(c, s);
      ScanRest(c, s);
    }
  }

  /** The scan only turns pending nodes with a failed parent, none of them started, into skipped ones. */
  lemma ScanChanges(c: Config, s: State)
    requires ValidConfig(c) && Shape(c, s) && Grounded(c, s)
    ensures var st := Scanned(c.g, s.status);
            && st.Keys == s.status.Keys
            && (forall w :: w in st && st[w] != s.status[w]
                  ==> st[w] == Skipped && s.status[w] == Pending && !Started(s, w) &&
                      !ParentsCompleted(c.g, s.status, w)
                      && ParentFailed(c.g, s.status, w))
  {
    forall w | w in s.status && s.status[w] == Pending && ParentFailed(c.g, s.status, w)
      ensures !ParentsCompleted(c.g, s.status, w) && !Started(s, w)
    {
      var u :| Edge(u, w) in c.g.edges && u in s.status && s.status[u] == Failed;
    }
  }

  lemma ScanGrounded(c: Config, s: State)
    requires ValidConfig(c) && Shape(c, s) && Grounded(c, s) && |s.completed| < |c.g.nodes|
    ensures Grounded(c, ApplyScan(c, s))
  {
    ScanChanges(c, s);
    KeepsParents(c, s, ApplyScan(c, s));
    forall w | w in Startable(c, s) ensures !AfterCycle(c.g, w) {
      ParentsClear(c, s, w);
    }
    NewGrounded(c, s, ApplyScan(c, s), Startable(c, s));
  }

  lemma NewGrounded(c: Config, s: State, s': State, news: set<NodeId>)
    requires Grounded(c, s)
    requires s'.tasks.Keys == s.tasks.Keys + news && s'.status.Keys == s.status.Keys
    requires forall w :: w in s.status && s'.status[w] != s.status[w] ==> s'.status[w] == Skipped
    requires forall w :: w in news ==> ParentsCompleted(c.g, s.status, w) && !AfterCycle(c.g, w)
    requires forall w :: ParentsCompleted(c.g, s.status, w) ==> ParentsCompleted(c.g, s'.status, w)
    ensures Grounded(c, s')
  {
    forall w | Started(s', w) ensures ParentsCompleted(c.g, s'.status, w) && !AfterCycle(c.g, w) {
      assert Started(s, w) || w in news;
    }
  }

  /** A node all of whose parents are started cannot be behind a cycle. */
  lemma ParentsClear(c: Config, s: State, w: NodeId)
    requires ValidConfig(c) && Grounded(c, s) && ParentsCompleted(c.g, s.status, w)
    ensures !AfterCycle(c.g, w)
  {
    if AfterCycle(c.g, w) {
      var u := AfterCycleParent(c.g, w);
      assert Started(s, u);
    }
  }

  lemma ScanSwept(c: Config, s: State)
    requires ValidConfig(c) && Shape(c, s) && Grounded(c, s) && Swept(c, s) && |s.completed| < |c.g.nodes|
    ensures Swept(c, ApplyScan(c, s))
  {
    var s' := ApplyScan(c, s);
    ScanChanges(c, s);
    KeepsFailed(c, s, s');
    forall w | w in s'.status && s'.status[w] == Skipped ensures FailedAncestor(c.g, s'.status, w) {
      if s.status[w] != Skipped {
        var u :| Edge(u, w) in c.g.edges && u in s.status && s.status[u] == Failed;
        ReachesEdge(c.g, u, w);
        assert s'.status[u] == Failed;
      }
    }
  }

  lemma ScanControl(c: Config, s: State)
    requires s.status.Keys == Elements(c.g.nodes) && Control(c, s) && |s.completed| < |c.g.nodes|
    ensures Control(c, ApplyScan(c, s))
  {
    var s' := ApplyScan(c, s);
    assert Holders(s'.tasks) == Holders(s.tasks);
    if s'.ended {
      assert s.tasks.Keys + Startable(c, s) == {};
      forall v | v in s'.status && v !in s'.completed ensures !IsReady(c.g, s'.status, v) {
        if IsReady(c.g, s'.status, v) { ScanReady(c.g, s.status, v); }
        assert v !in Startable(c, s);
      }
    }
  }

  /** The scan makes no further node ready. */
  lemma ScanReady(g: Graph, st: Statuses, v: NodeId)
    requires IsReady(g, Scanned(g, st), v)
    ensures IsReady(g, st, v)
  {
    forall u | Edge(u, v) in g.edges ensures u in st && st[u] == Completed {
      assert u in Scanned(g, st);
    }
  }

  lemma ScanShape(c: Config, s: State)
    requires ValidConfig(c) && Shape(c, s) && Grounded(c, s) && |s.completed| < |c.g.nodes|
    ensures Shape(c, ApplyScan(c, s))
  {
    ScanChanges(c, s);
    var s' := ApplyScan(c, s);
    forall w | w in Startable(c, s) ensures w in s'.status && s'.status[w] == Pending {
      assert ParentsCompleted(c.g, s.status, w);
    }
    NewShape(c, s, s', Startable(c, s));
  }

  lemma NewShape(c: Config, s: State, s': State, news: set<NodeId>)
    requires Shape(c, s) && s'.completed == s.completed && s'.status.Keys == s.status.Keys
    requires s'.tasks == s.tasks + (map v | v in news :: Queued)
    requires forall w :: w in news ==> w in s'.status && s'.status[w] == Pending && w !in s.completed
    requires forall w :: w in s.status && s'.status[w] != s.status[w] ==>
               s'.status[w] == Skipped && w !in s.tasks && s.status[w] == Pending
    ensures Shape(c, s')
  {
  }

  lemma ScanRest(c: Config, s: State)
    requires ValidConfig(c) && Shape(c, s) && Grounded(c, s) && Honest(c, s) && Reported(s) &&
             |s.completed| < |c.g.nodes|
    ensures var s' := ApplyScan(c, s); Honest(c, s') && Reported(s')
  {
    ScanChanges(c, s);
    var s' := ApplyScan(c, s);
    assert forall w :: w in s'.tasks && s'.tasks[w].Active? ==> w in s.tasks && s'.tasks[w] == s.tasks[w];
  }

  lemma EventInv(c: Config, s: State, e: Event)
    requires ValidConfig(c) && Inv(c, s) && Enabled(c, s, e)
    ensures Inv(c, Apply(c, s, e))
  {
    match e
    case Reap(v) => ReapInv(c, s, v);
    case Scan => ScanInv(c, s);
    case _ => TaskEventInv(c, s, e);
  }
}
