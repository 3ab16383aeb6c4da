/** Theorems about whole runs of the executor: they end, they cannot get stuck, they start no
    node twice, and they all end with the same statuses. */
module DagConfluence {
  import opened Common
  import opened DagGraph
  import opened TaskDag
  import opened DagExecution

  ghost predicate IsRun(c: Config, s: State, events: seq<Event>)
    decreases |events|
  {
    events == [] || (Enabled(c, s, events[0]) && IsRun(c, Apply(c, s, events[0]), events[1..]))
  }

  ghost function After(c: Config, s: State, events: seq<Event>): State
    requires IsRun(c, s, events)
    decreases |events|
  {
    if events == [] then s else After(c, Apply(c, s, events[0]), events[1..])
  }

  lemma {:induction false} RunInv(c: Config, s: State, events: seq<Event>)
    requires ValidConfig(c) && Inv(c, s) && IsRun(c, s, events)
    ensures Inv(c, After(c, s, events))
    decreases |events|
  {
    if events != [] {
      EventInv(c, s, events[0]);
      RunInv(c, Apply(c, s, events[0]), events[1..]);
    }
  }

  /** Every state of every run: started nodes have completed parents, slots are respected,
      and attempts stay within the retry budget. */
  lemma SafeRuns(c: Config, events: seq<Event>)
    requires ValidConfig(c) && IsRun(c, Init(c), events)
    ensures var s := After(c, Init(c), events);
            && (forall u, v :: Edge(u, v) in c.g.edges && Started(s, v) ==> u in s.status && s.status[u] == Completed)
            && |set v | v in s.status && s.status[v] == Running| <= c.maxConcurrency
            && (forall v :: v in s.tasks && s.tasks[v].Active? ==>
                  v in c.retries && s.tasks[v].tries <= if c.retries[v] >= 0 then c.retries[v] + 1 else 0)
  {
    InitInv(c);
    RunInv(c, Init(c), events);
    var s := After(c, Init(c), events);
    ParentsDone(c, s);
    SlotsKept(c, s);
  }

  lemma ParentsDone(c: Config, s: State)
    requires Grounded(c, s)
    ensures forall u, v :: Edge(u, v) in c.g.edges && Started(s, v) ==> u in s.status && s.status[u] == Completed
  {
    forall u, v | Edge(u, v) in c.g.edges && Started(s, v) ensures u in s.status && s.status[u] == Completed {
      assert ParentsCompleted(c.g, s.status, v);
    }
  }

  lemma SlotsKept(c: Config, s: State)
    requires Shape(c, s) && Control(c, s)
    ensures |set v | v in s.status && s.status[v] == Running| <= c.maxConcurrency
  {
    var running := set v | v in s.status && s.status[v] == Running;
    assert running <= Holders(s.tasks);
    SubsetCount(running, Holders(s.tasks));
  }

  // ----- no node runs twice -----

  ghost predicate Begun(s: State, v: NodeId) {
    v in s.status && (s.status[v].Running? || s.status[v].Completed? || s.status[v].Failed?)
  }

  lemma BegunStays(c: Config, s: State, e: Event, v: NodeId)
    requires ValidConfig(c) && Shape(c, s) && Grounded(c, s) && Enabled(c, s, e) && Begun(s, v)
    ensures Begun(Apply(c, s, e), v)
  {
    match e
    case Reap(w) => ReapChanges(c, s, w);
    case Scan => ScanChanges(c, s);
    case _ =>
  }

  lemma CountFirst(events: seq<Event>, e: Event)
    requires events != []
    ensures multiset(events)[e] == (if events[0] == e then 1 else 0) + multiset(events[1..])[e]
  {
    assert events == [events[0]] + events[1..];
  }

  lemma {:induction false} BegunNeverAcquires(c: Config, s: State, events: seq<Event>, v: NodeId)
    requires ValidConfig(c) && Inv(c, s) && IsRun(c, s, events) && Begun(s, v)
    ensures multiset(events)[Acquire(v)] == 0
    decreases |events|
  {
    if events != [] {
      EventInv(c, s, events[0]);
      BegunStays(c, s, events[0], v);
      BegunNeverAcquires(c, Apply(c, s, events[0]), events[1..], v);
      CountFirst(events, Acquire(v));
    }
  }

  /** In every run each node begins at most once. */
  lemma {:induction false} BeginsOnce(c: Config, s: State, events: seq<Event>, v: NodeId)
    requires ValidConfig(c) && Inv(c, s) && IsRun(c, s, events)
    ensures multiset(events)[Acquire(v)] <= 1
    decreases |events|
  {
    if events != [] {
      var s' := Apply(c, s, events[0]);
      EventInv(c, s, events[0]);
      CountFirst(events, Acquire(v));
      if events[0] == Acquire(v) {
        BegunNeverAcquires(c, s', events[1..], v);
      } else {
        BeginsOnce(c, s', events[1..], v);
      }
    }
  }

  /** The attempts v may still make. */
  function Budget(c: Config, s: State, v: NodeId): (left: nat)
    ensures left <= MaxTries(c, v)
  {
    if v in s.tasks && s.tasks[v].Active? then
      (if s.tasks[v].tries <= MaxTries(c, v) then MaxTries(c, v) - s.tasks[v].tries else 0)
    else if v in s.status && (s.status[v].Completed? || s.status[v].Failed?) then 0
    else MaxTries(c, v)
  }

  lemma BudgetTask(c: Config, s: State, e: Event, v: NodeId)
    requires Shape(c, s) && Enabled(c, s, e) && !e.Reap? && !e.Scan?
    ensures Budget(c, Apply(c, s, e), v) + (if e == Succeed(v) || e == Fail(v) then 1 else 0) <= Budget(c, s, v)
  {
  }

  /** Events of the main loop leave v's task and verdict alone, or create a queued task. */
  lemma BudgetLoop(c: Config, s: State, s': State, v: NodeId)
    requires Shape(c, s) && s'.status.Keys == s.status.Keys
    requires v in s.status && s'.status[v] != s.status[v] ==> s'.status[v] == Skipped && s.status[v] == Pending
    requires v in s'.tasks ==> s'.tasks[v] == if v in s.tasks then s.tasks[v] else Queued
    requires v in s.tasks ==> v in s'.tasks || s.tasks[v] == Finished
    requires v in s'.tasks && v !in s.tasks ==> v in s.status && s.status[v] == Pending
    ensures Budget(c, s', v) <= Budget(c, s, v)
  {
  }

  lemma BudgetReap(c: Config, s: State, w: NodeId, v: NodeId)
    requires ValidConfig(c) && Shape(c, s) && Grounded(c, s) && Enabled(c, s, Reap(w))
    ensures Budget(c, ApplyReap(c, s, w), v) <= Budget(c, s, v)
  {
    ReapChanges(c, s, w);
    BudgetLoop(c, s, ApplyReap(c, s, w), v);
  }

  lemma BudgetScan(c: Config, s: State, v: NodeId)
    requires ValidConfig(c) && Shape(c, s) && Grounded(c, s) && Enabled(c, s, Scan)
    ensures Budget(c, ApplyScan(c, s), v) <= Budget(c, s, v)
  {
    ScanChanges(c, s);
    BudgetLoop(c, s, ApplyScan(c, s), v);
  }

  lemma BudgetStep(c: Config, s: State, e: Event, v: NodeId)
    requires ValidConfig(c) && Shape(c, s) && Grounded(c, s) && Enabled(c, s, e)
    ensures Budget(c, Apply(c, s, e), v) + (if e == Succeed(v) || e == Fail(v) then 1 else 0) <= Budget(c, s, v)
  {
    match e
    case Reap(w) => BudgetReap(c, s, w, v);
    case Scan => BudgetScan(c, s, v);
    case _ => BudgetTask(c, s, e, v);
  }

  /** From any state on, a node makes no more attempts than its budget has left. */
  lemma {:induction false} AttemptsWithin(c: Config, s: State, events: seq<Event>, v: NodeId)
    requires ValidConfig(c) && Inv(c, s) && IsRun(c, s, events)
    ensures multiset(events)[Succeed(v)] + multiset(events)[Fail(v)] <= Budget(c, s, v)
    decreases |events|
  {
    if events != [] {
      EventInv(c, s, events[0]);
      AttemptsWithin(c, Apply(c, s, events[0]), events[1..], v);
      AttemptsFirst(c, s, events, v);
    }
  }

  /** The first event uses up the budget it takes. */
  lemma AttemptsFirst(c: Config, s: State, events: seq<Event>, v: NodeId)
    requires ValidConfig(c) && Shape(c, s) && Grounded(c, s) && events != [] && Enabled(c, s, events[0])
    requires multiset(events[1..])[Succeed(v)] + multiset(events[1..])[Fail(v)] <= Budget(c, Apply(c, s, events[0]), v)
    ensures multiset(events)[Succeed(v)] + multiset(events)[Fail(v)] <= Budget(c, s, v)
  {
    BudgetStep(c, s, events[0], v);
    CountFirst(events, Succeed(v));
    CountFirst(events, Fail(v));
  }

  /** In every run each node makes at most max_retries + 1 attempts. */
  lemma AttemptsBounded(c: Config, events: seq<Event>, v: NodeId)
    requires ValidConfig(c) && IsRun(c, Init(c), events) && v in c.retries
    ensures multiset(events)[Succeed(v)] + multiset(events)[Fail(v)]
         <= if c.retries[v] >= 0 then c.retries[v] + 1 else 0
  {
    InitInv(c);
    AttemptsWithin(c, Init(c), events, v);
  }

  // ----- every run ends -----

  ghost function Effort(c: Config, s: State, v: NodeId): nat {
    if v in s.completed then 0
    else if v !in s.tasks then MaxTries(c, v) + 6
    else match s.tasks[v]
      case Queued => MaxTries(c, v) + 5
      case Active(k) => 4 + if k <= MaxTries(c, v) then MaxTries(c, v) - k else 0
      case Settled => 3
      case Finished => 2
  }

  ghost function TotalEffort(c: Config, s: State, nodes: seq<NodeId>): nat {
    if nodes == [] then 0 else Effort(c, s, nodes[0]) + TotalEffort(c, s, nodes[1..])
  }

  /** An upper bound on the number of events still to come. */
  ghost function Remaining(c: Config, s: State): nat {
    TotalEffort(c, s, c.g.nodes) + (if s.ended then 0 else if s.waiting then 1 else 2)
  }

  lemma {:induction false} EffortSum(c: Config, s: State, s': State, nodes: seq<NodeId>, v: NodeId, drop: nat)
    requires forall w :: w in nodes ==> Effort(c, s', w) <= Effort(c, s, w)
    requires v in nodes ==> Effort(c, s', v) + drop <= Effort(c, s, v)
    ensures TotalEffort(c, s', nodes) + (if v in nodes then drop else 0) <= TotalEffort(c, s, nodes)
    decreases |nodes|
  {
    if nodes != [] {
      assert nodes == [nodes[0]] + nodes[1..];
      EffortSum(c, s, s', nodes[1..], v, drop);
    }
  }

  lemma TaskEventCosts(c: Config, s: State, e: Event)
    requires Shape(c, s) && Enabled(c, s, e) && !e.Reap? && !e.Scan?
    ensures Remaining(c, Apply(c, s, e)) < Remaining(c, s)
  {
    TaskEventEffort(c, s, e);
    assert e.v in c.g.nodes;
    EffortSum(c, s, Apply(c, s, e), c.g.nodes, e.v, 1);
  }

  lemma TaskEventEffort(c: Config, s: State, e: Event)
    requires Shape(c, s) && Enabled(c, s, e) && !e.Reap? && !e.Scan?
    ensures forall w :: w != e.v ==> Effort(c, Apply(c, s, e), w) == Effort(c, s, w)
    ensures Effort(c, Apply(c, s, e), e.v) + 1 <= Effort(c, s, e.v)
  {
    assert e.v !in s.completed;
  }

  lemma ReapCosts(c: Config, s: State, v: NodeId)
    requires Shape(c, s) && Enabled(c, s, Reap(v))
    ensures Remaining(c, ApplyReap(c, s, v)) < Remaining(c, s)
  {
    var s' := ApplyReap(c, s, v);
    assert s.completed + {v} <= s'.completed && s'.tasks == s.tasks - {v} && v in c.g.nodes;
    EffortSum(c, s, s', c.g.nodes, v, 2);
  }

  lemma ScanCosts(c: Config, s: State)
    requires Enabled(c, s, Scan)
    ensures Remaining(c, ApplyScan(c, s)) < Remaining(c, s)
  {
    var s' := ApplyScan(c, s);
    assert s'.completed == s.completed;
    forall w | w in c.g.nodes ensures Effort(c, s', w) <= Effort(c, s, w) {
      assert w in s'.tasks ==> (w in s.tasks && s'.tasks[w] == s.tasks[w]) || (w !in s.tasks && s'.tasks[w] == Queued);
      assert w in s.tasks ==> w in s'.tasks;
    }
    EffortSum(c, s, s', c.g.nodes, NodeId(""), 0);
    assert s'.ended || s'.waiting;
  }

  lemma EventCosts(c: Config, s: State, e: Event)
    requires ValidConfig(c) && Inv(c, s) && Enabled(c, s, e)
    ensures Remaining(c, Apply(c, s, e)) < Remaining(c, s)
  {
    match e
    case Reap(v) => ReapCosts(c, s, v);
    case Scan => ScanCosts(c, s);
    case _ => TaskEventCosts(c, s, e);
  }

  /** No run is longer than `Remaining` of its first state. */
  lemma {:induction false} RunsEnd(c: Config, s: State, events: seq<Event>)
    requires ValidConfig(c) && Inv(c, s) && IsRun(c, s, events)
    ensures |events| <= Remaining(c, s)
    decreases |events|
  {
    if events != [] {
      EventInv(c, s, events[0]);
      EventCosts(c, s, events[0]);
      RunsEnd(c, Apply(c, s, events[0]), events[1..]);
    }
  }

  /** A run that has not ended can go on, exactly when there is a semaphore slot or the main
      loop itself has something to do; with no slots, an await is never answered. */
  lemma NeverStuck(c: Config, s: State)
    requires Control(c, s) && !s.ended
    ensures (exists e :: Enabled(c, s, e)) <==>
            c.maxConcurrency >= 1 || !s.waiting || exists v :: v in s.tasks && s.tasks[v] == Finished
  {
    if !s.waiting {
      assert Enabled(c, s, Scan);
    } else if exists v :: v in s.tasks && s.tasks[v] == Finished {
      var v :| v in s.tasks && s.tasks[v] == Finished;
      assert Enabled(c, s, Reap(v));
    } else if v :| v in Holders(s.tasks) {
      HolderMoves(c, s, v);
      SubsetCount({v}, Holders(s.tasks));
    } else {
      assert Holders(s.tasks) == {};
      var v :| v in s.tasks;
      forall w | w in s.tasks ensures s.tasks[w] == Queued { assert w !in Holders(s.tasks); }
      if c.maxConcurrency >= 1 { assert Enabled(c, s, Acquire(v)); }
    }
  }

  lemma HolderMoves(c: Config, s: State, v: NodeId)
    requires v in Holders(s.tasks)
    ensures exists e :: Enabled(c, s, e)
  {
    if s.tasks[v] == Settled {
      assert Enabled(c, s, Return(v));
    } else if s.tasks[v].tries >= MaxTries(c, v) {
      assert Enabled(c, s, GiveUp(v));
    } else if c.succeeds(v, s.tasks[v].tries) {
      assert Enabled(c, s, Succeed(v));
    } else {
      assert Enabled(c, s, Fail(v));
    }
  }

  // ----- every run ends the same way -----

  /** Some proper ancestor of v, itself not behind a cycle, cannot succeed. */
  ghost predicate BadAncestor(c: Config, v: NodeId) {
    exists a :: Reaches(c.g, a, v) && !AfterCycle(c.g, a) && !CanSucceed(c, a)
  }

  /** The final status, read off the graph and the nodes' own outcomes, without any execution.
      On an acyclic graph the pending case does not arise. */
  ghost function Final(c: Config, v: NodeId): NodeStatus {
    if BadAncestor(c, v) then Skipped
    else if AfterCycle(c.g, v) then Pending
    else if CanSucceed(c, v) then Completed
    else Failed
  }

  /** What an ended state looks like at each node. */
  lemma EndedLocally(c: Config, s: State, v: NodeId)
    requires ValidConfig(c) && Inv(c, s) && s.ended && v in c.g.nodes
    ensures s.status[v] == Completed || s.status[v] == Failed || s.status[v] == Skipped || s.status[v] == Pending
    ensures (s.status[v] == Completed || s.status[v] == Failed) <==> ParentsCompleted(c.g, s.status, v)
    ensures s.status[v] == Skipped <==> FailedAncestor(c.g, s.status, v)
    ensures AfterCycle(c.g, v) ==> s.status[v] == Skipped || s.status[v] == Pending
  {
    if FailedAncestor(c.g, s.status, v) {
      var a :| a in s.status && s.status[a] == Failed && Reaches(c.g, a, v);
      BelowFailedUnstarted(c, s, a);
      assert v in Descendants(c.g, a);
      var w := LastEdge(c.g, a, v);
      if ParentsCompleted(c.g, s.status, v) {
        assert Started(s, w);
        AncestorsCompleted(c, s, a, w);
        assert false;
      }
    }
  }

  lemma {:induction false} FinalInOrder(c: Config, s: State, order: seq<NodeId>, i: nat)
    requires ValidConfig(c) && Inv(c, s) && s.ended && IsKahnOrder(c.g, order) && i < |order|
    ensures order[i] in s.status && s.status[order[i]] == Final(c, order[i])
    decreases i
  {
    var v := order[i];
    KahnMissing(c.g, order, v);
    EndedLocally(c, s, v);
    if BadAncestor(c, v) {
      var a :| Reaches(c.g, a, v) && !AfterCycle(c.g, a) && !CanSucceed(c, a);
      var j := AncestorEarlier(c.g, order, a, i);
      FinalInOrder(c, s, order, j);
      if s.status[a] != Failed {
        EndedLocally(c, s, a);
        var b :| b in s.status && s.status[b] == Failed && Reaches(c.g, b, a);
        ReachesTransitive(c.g, b, a, v);
      }
      assert FailedAncestor(c.g, s.status, v);
    } else {
      forall u | Edge(u, v) in c.g.edges ensures u in s.status && s.status[u] == Completed {
        ReachesEdge(c.g, u, v);
        var j := AncestorEarlier(c.g, order, u, i);
        FinalInOrder(c, s, order, j);
        KahnMissing(c.g, order, u);
        if BadAncestor(c, u) {
          var a :| Reaches(c.g, a, u) && !AfterCycle(c.g, a) && !CanSucceed(c, a);
          ReachesTransitive(c.g, a, u, v);
        }
      }
      assert ParentsCompleted(c.g, s.status, v);
    }
  }

  lemma AncestorEarlier(g: Graph, order: seq<NodeId>, a: NodeId, i: nat) returns (j: nat)
    requires WellFormed(g) && IsKahnOrder(g, order) && i < |order| && Reaches(g, a, order[i])
    ensures j < i && order[j] == a
  {
    var p :| PathFromTo(g, p, a, order[i]) && |p| >= 2;
    PathGoesBack(g, order, p, i);
    j :| 0 <= j < i && order[j] == a;
  }

  /** Whatever the interleaving, the concurrency limit and the cycles of the graph, an ended
      state carries exactly the final statuses. */
  lemma EndedIsFinal(c: Config, s: State, v: NodeId)
    requires ValidConfig(c) && Inv(c, s) && s.ended && v in c.g.nodes
    ensures v in s.status && s.status[v] == Final(c, v)
  {
    var order := KahnOrderExists(c.g, []);
    KahnMissing(c.g, order, v);
    if v in order {
      var i :| 0 <= i < |order| && order[i] == v;
      FinalInOrder(c, s, order, i);
    } else {
      EndedLocally(c, s, v);
      if BadAncestor(c, v) {
        var a :| Reaches(c.g, a, v) && !AfterCycle(c.g, a) && !CanSucceed(c, a);
        ReachesNode(c.g, a, v);
        KahnMissing(c.g, order, a);
        var j :| 0 <= j < |order| && order[j] == a;
        FinalInOrder(c, s, order, j);
        if s.status[a] != Failed {
          EndedLocally(c, s, a);
          var b :| b in s.status && s.status[b] == Failed && Reaches(c.g, b, a);
          ReachesTransitive(c.g, b, a, v);
        }
        assert FailedAncestor(c.g, s.status, v);
      }
    }
  }

  /** The results of an ended state: one for each node that was not skipped. */
  lemma ResultsFinal(c: Config, s: State)
    requires Shape(c, s) && Reported(s)
    requires forall v :: v in c.g.nodes ==> v in s.status && s.status[v] == Final(c, v)
    ensures forall r :: r in s.results <==>
              r.node in c.g.nodes && Final(c, r.node) == if r.success then Completed else Failed
  {
    forall r: ExecutionResult
      ensures r in s.results <==> r.node in c.g.nodes && Final(c, r.node) == if r.success then Completed else Failed
    {
      assert r == ExecutionResult(r.node, r.success);
    }
  }

  /** Confluence: whatever the interleaving and the concurrency limit, every ended run leaves
      each node with its final status, which on an acyclic graph is skipped exactly when a
      proper ancestor failed and otherwise the node's own outcome, and reports exactly one
      result for each node that has a verdict. */
  lemma Confluence(c: Config, events: seq<Event>)
    requires ValidConfig(c) && IsRun(c, Init(c), events)
    requires After(c, Init(c), events).ended
    ensures var s := After(c, Init(c), events);
            && s.status.Keys == Elements(c.g.nodes)
            && (forall v :: v in c.g.nodes ==> s.status[v] == Final(c, v))
            && (forall v :: v in c.g.nodes ==> (s.status[v] == Skipped <==> FailedAncestor(c.g, s.status, v)))
            && (forall r :: r in s.results <==>
                r.node in c.g.nodes && Final(c, r.node) == if r.success then Completed else Failed)
            && (forall i, j :: 0 <= i < j < |s.results| ==> s.results[i].node != s.results[j].node)
            && (Acyclic(c.g) ==> forall v :: v in c.g.nodes ==> s.status[v] != Pending)
  {
    InitInv(c);
    RunInv(c, Init(c), events);
    AcyclicIff(c.g);
    var s := After(c, Init(c), events);
    forall v | v in c.g.nodes
      ensures v in s.status && s.status[v] == Final(c, v) &&
              (s.status[v] == Skipped <==> FailedAncestor(c.g, s.status, v))
    {
      EndedIsFinal(c, s, v);
      EndedLocally(c, s, v);
    }
    ResultsFinal(c, s);
  }
}
