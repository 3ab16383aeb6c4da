/** The executor as a program: the readiness scan, the skip cascade and the main loop act on
    the task graph in place, while the scheduler picks any enabled event at every turn. */
module DagExecutor {
  import opened Common
  import opened DagGraph
  import opened TaskDag
  import opened DagExecution
  import opened DagConfluence
  import opened DagAttempts

  /** The `swept` nodes and the root have only swept, closed or root children. */
  ghost predicate SweepClosed(g: Graph, root: NodeId, closed: set<NodeId>, swept: set<NodeId>, frontier: set<NodeId>) {
    forall e :: e in g.edges && (e.source in swept || e.source == root)
            ==> e.target in swept || e.target in closed || e.target == root || e.target in frontier
  }

  /** With an empty frontier, everything below the root is swept or was closed before. */
  lemma {:induction false} SweepReaches(g: Graph, root: NodeId, closed: set<NodeId>, swept: set<NodeId>, p: seq<NodeId>)
    requires WellFormed(g) && IsPath(g, p) && p[0] == root
    requires SweepClosed(g, root, closed, swept, {})
    requires forall w :: w in closed && Reaches(g, root, w) ==> w == root || Descendants(g, w) <= closed
    ensures p[|p| - 1] == root || p[|p| - 1] in swept || p[|p| - 1] in closed
    decreases |p|
  {
    if |p| >= 2 {
      var q := p[0..|p| - 1];
      var u, v := p[|p| - 2], p[|p| - 1];
      SubPath(g, p, 0, |p| - 1);
      PathNodes(g, p);
      assert Edge(p[(|p| - 1) - 1], p[|p| - 1]) in g.edges;
      SweepReaches(g, root, closed, swept, q);
      if u in closed && u != root {
        assert PathFromTo(g, q, root, u) && |q| >= 2;
        ReachesEdge(g, u, v);
        assert v in Descendants(g, u);
      }
    }
  }

  method PushUnvisited(queue: seq<NodeId>, children: seq<NodeId>, visited: set<NodeId>) returns (r: seq<NodeId>)
    ensures forall x :: x in r <==> x in queue || (x in children && x !in visited)
  {
    r := queue;
    for k := 0 to |children|
      invariant forall x :: x in r <==> x in queue || (x in children[..k] && x !in visited)
    {
      if children[k] !in visited { r := r + [children[k]]; }
    }
  }

  function Marked(st: Statuses, swept: set<NodeId>): Statuses {
    map w | w in st :: if w in swept then Skipped else st[w]
  }

  /** The breadth-first skip cascade below a failed node. */
  method CascadeSkip(dag: TaskDAG, failedId: NodeId, completed: set<NodeId>) returns (completed': set<NodeId>)
    requires dag.Valid() && failedId in completed
    requires forall w :: w in completed && Reaches(dag.View(), failedId, w) ==>
               w == failedId || Descendants(dag.View(), w) <= completed
    modifies dag`status
    ensures dag.Valid()
    ensures dag.status == SkipBelow(dag.View(), old(dag.status), completed, failedId)
    ensures completed' == completed + Descendants(dag.View(), failedId)
  {
    ghost var before := dag.status;
    ghost var swept, visited;
    completed', swept, visited := CascadeLoop(dag, failedId, completed);
    CascadeEnd(dag.View(), failedId, completed, swept, visited, before);
  }

  method CascadeLoop(dag: TaskDAG, failedId: NodeId, completed: set<NodeId>)
    returns (completed': set<NodeId>, ghost swept: set<NodeId>, ghost visited': set<NodeId>)
    requires dag.Valid() && failedId in completed
    modifies dag`status
    ensures dag.Valid()
    ensures dag.status == Marked(old(dag.status), swept)
    ensures completed' == completed + swept
    ensures CascadeState(dag.View(), failedId, completed, swept, visited', [])
  {
    ghost var g := dag.View();
    ghost var before := dag.status;
    swept := {};
    completed' := completed;
    var queue := Lookup(dag.adj, failedId);
    var visited := {failedId};
    CascadeStart(g, failedId, completed, queue);
    while queue != []
      invariant completed' == completed + swept
      invariant dag.status == Marked(before, swept)
      invariant CascadeState(g, failedId, completed, swept, visited, queue)
      decreases Elements(dag.order) - visited, |queue|
    {
      var child := queue[0];
      ghost var waiting := queue;
      queue := queue[1..];
      CascadeHead(g, failedId, completed, swept, visited, waiting);
      if child !in visited {
        if child !in completed' {
          MarkedMore(before, swept, child);
          queue := SkipChild(dag, child, queue, visited, failedId, completed, swept, waiting);
          completed' := completed' + {child};
          swept := swept + {child};
        }
        visited := visited + {child};
      }
    }
    visited' := visited;
  }

  /** Skipping one child, and queueing its own children. */
  method SkipChild(dag: TaskDAG, child: NodeId, rest: seq<NodeId>, visited: set<NodeId>,
                   ghost root: NodeId, ghost closed: set<NodeId>, ghost swept: set<NodeId>, ghost waiting: seq<NodeId>)
    returns (queue: seq<NodeId>)
    requires dag.Valid() && child in dag.status
    requires CascadeState(dag.View(), root, closed, swept, visited, waiting)
    requires waiting != [] && child == waiting[0] && rest == waiting[1..] && child !in visited && child !in closed
    modifies dag`status
    ensures dag.Valid() && dag.status == old(dag.status)[child := Skipped]
    ensures CascadeState(dag.View(), root, closed, swept + {child}, visited + {child}, queue)
  {
    queue := PushUnvisited(rest, Lookup(dag.adj, child), visited + {child});
    CascadeSweep(dag.View(), root, closed, swept, visited, waiting, queue);
    dag.status := dag.status[child := Skipped];
  }

  lemma MarkedMore(st: Statuses, swept: set<NodeId>, child: NodeId)
    requires child in st
    ensures Marked(st, swept)[child := Skipped] == Marked(st, swept + {child})
  {
  }

  /** The cascade between two queue removals: `swept` are the nodes it has skipped so far and
      `closed` those that were completed when it began. */
  ghost predicate CascadeState(g: Graph, root: NodeId, closed: set<NodeId>, swept: set<NodeId>,
                               visited: set<NodeId>, queue: seq<NodeId>)
  {
    && WellFormed(g) && root in closed
    && swept + {root} <= visited && swept !! closed && visited <= swept + closed
    && (forall x :: x in queue || x in swept ==> Reaches(g, root, x))
    && SweepClosed(g, root, closed, swept, Elements(queue))
  }

  lemma CascadeStart(g: Graph, root: NodeId, closed: set<NodeId>, queue: seq<NodeId>)
    requires WellFormed(g) && root in closed && queue == Children(g.edges, root)
    ensures CascadeState(g, root, closed, {}, {root}, queue)
  {
    ListsHave(g.edges, root);
    forall x | x in queue ensures Reaches(g, root, x) { ReachesEdge(g, root, x); }
  }

  /** Taking a child off the queue: it is a node, and if it is visited or closed already
      nothing more is owed to it. */
  lemma CascadeHead(g: Graph, root: NodeId, closed: set<NodeId>, swept: set<NodeId>,
                    visited: set<NodeId>, queue: seq<NodeId>)
    requires CascadeState(g, root, closed, swept, visited, queue) && queue != []
    ensures queue[0] in Elements(g.nodes)
    ensures queue[0] in visited ==> CascadeState(g, root, closed, swept, visited, queue[1..])
    ensures queue[0] in closed ==> CascadeState(g, root, closed, swept, visited + {queue[0]}, queue[1..])
  {
    ReachesNode(g, root, queue[0]);
    assert queue == [queue[0]] + queue[1..];
    assert Elements(queue) == Elements(queue[1..]) + {queue[0]};
  }

  lemma CascadeSweep(g: Graph, root: NodeId, closed: set<NodeId>, swept: set<NodeId>,
                     visited: set<NodeId>, queue: seq<NodeId>, queue': seq<NodeId>)
    requires CascadeState(g, root, closed, swept, visited, queue) && queue != []
    requires queue[0] !in visited && queue[0] !in closed
    requires forall x :: x in queue' <==>
               x in queue[1..] || (x in Children(g.edges, queue[0]) && x !in visited + {queue[0]})
    ensures CascadeState(g, root, closed, swept + {queue[0]}, visited + {queue[0]}, queue')
  {
    var child := queue[0];
    assert queue == [child] + queue[1..];
    ListsHave(g.edges, child);
    BelowChild(g, root, child);
    forall e | e in g.edges && (e.source in swept + {child} || e.source == root)
      ensures e.target in swept + {child} || e.target in closed || e.target == root || e.target in Elements(queue')
    {
      if e.source == child { assert e == Edge(child, e.target); }
    }
  }

  lemma CascadeEnd(g: Graph, root: NodeId, closed: set<NodeId>, swept: set<NodeId>, visited: set<NodeId>, st: Statuses)
    requires CascadeState(g, root, closed, swept, visited, [])
    requires forall w :: w in closed && Reaches(g, root, w) ==> w == root || Descendants(g, w) <= closed
    ensures closed + swept == closed + Descendants(g, root)
    ensures Marked(st, swept) == SkipBelow(g, st, closed, root)
  {
    assert Elements<NodeId>([]) == {};
    forall w | Reaches(g, root, w) ensures w in closed + swept && w in g.nodes {
      var p :| PathFromTo(g, p, root, w) && |p| >= 2;
      SweepReaches(g, root, closed, swept, p);
      ReachesNode(g, root, w);
    }
  }

  lemma BelowChild(g: Graph, root: NodeId, child: NodeId)
    requires WellFormed(g) && Reaches(g, root, child)
    ensures forall x :: Edge(child, x) in g.edges ==> Reaches(g, root, x)
  {
    forall x | Edge(child, x) in g.edges ensures Reaches(g, root, x) {
      ReachesEdge(g, child, x);
      ReachesTransitive(g, root, child, x);
    }
  }

  class DAGExecutor {
    const maxConcurrency: int
    var results: seq<ExecutionResult>

    constructor (maxConcurrency: int)
      ensures this.maxConcurrency == maxConcurrency && results == []
    {
      this.maxConcurrency := maxConcurrency;
      results := [];
    }

    ghost function ConfigOf(dag: TaskDAG, attempt: (NodeId, nat) -> bool): Config
      reads dag`order, dag`edges, dag`nodes
    {
      Config(dag.View(), map v | v in dag.nodes :: dag.nodes[v].maxRetries, maxConcurrency, attempt)
    }

    /** c is the configuration of a run on this graph. */
    ghost predicate Fits(c: Config, dag: TaskDAG, attempt: (NodeId, nat) -> bool)
      reads dag`order, dag`edges, dag`nodes
    {
      && c.g == Graph(dag.order, dag.edges) && c.maxConcurrency == maxConcurrency && c.succeeds == attempt
      && c.retries.Keys == dag.nodes.Keys && forall v :: v in dag.nodes ==> c.retries[v] == dag.nodes[v].maxRetries
    }

    ghost function StateOf(dag: TaskDAG, tasks: map<NodeId, Phase>, completed: set<NodeId>, waiting: bool,
                           ended: bool): State
      reads `results, dag`status
    {
      State(dag.status, tasks, completed, results, waiting, ended)
    }

    /** The main loop and its tasks under an arbitrary scheduler. It always returns, and the
        statuses and results it leaves do not depend on the scheduler's choices. */
    method Execute(dag: TaskDAG, attempt: (NodeId, nat) -> bool)
      requires dag.Valid() && maxConcurrency >= 1
      requires forall v :: v in dag.status ==> dag.status[v] == Pending
      modifies this`results, dag`status
      ensures dag.Valid()
      ensures forall v :: v in dag.nodes ==> dag.status[v] == Final(old(ConfigOf(dag, attempt)), v)
      ensures forall r :: r in results <==>
                r.node in dag.nodes &&
                    Final(old(ConfigOf(dag, attempt)), r.node) == if r.success then Completed else Failed
      ensures forall i, j :: 0 <= i < j < |results| ==> results[i].node != results[j].node
      ensures forall v :: v in dag.nodes && dag.status[v] == Completed ==>
                exists k: nat :: k <= dag.nodes[v].maxRetries && attempt(v, k)
      ensures forall v :: v in dag.nodes && dag.status[v] == Failed ==>
                forall k: nat :: k <= dag.nodes[v].maxRetries ==> !attempt(v, k)
      ensures forall v :: v in dag.nodes ==>
                (dag.status[v] == Skipped
                 <==> exists a :: a in dag.nodes && dag.status[a] == Failed && Reaches(dag.View(), a, v))
      ensures Acyclic(dag.View()) ==> forall v :: v in dag.nodes ==>
                dag.status[v] == Completed || dag.status[v] == Failed || dag.status[v] == Skipped
    {
      Conclude(dag, attempt, ConfigOf(dag, attempt));
    }

    method Conclude(dag: TaskDAG, attempt: (NodeId, nat) -> bool, ghost c: Config)
      requires dag.Valid() && maxConcurrency >= 1 && c == ConfigOf(dag, attempt)
      requires forall v :: v in dag.status ==> dag.status[v] == Pending
      modifies this`results, dag`status
      ensures dag.Valid()
      ensures forall v :: v in dag.nodes ==> dag.status[v] == Final(c, v)
      ensures forall r :: r in results <==>
                r.node in dag.nodes && Final(c, r.node) == if r.success then Completed else Failed
      ensures forall i, j :: 0 <= i < j < |results| ==> results[i].node != results[j].node
      ensures Concluded(dag.View(), dag.nodes, dag.status, attempt)
    {
      results := [];
      assert StateOf(dag, map[], {}, false, false) == Init(c);
      InitInv(c);
      ghost var completed, waiting := Run(dag, attempt, c);
      ghost var s := StateOf(dag, map[], completed, waiting, true);
      EndedEverywhere(c, s);
      EndedSpelled(c, s, dag.nodes);
    }

    method Run(dag: TaskDAG, attempt: (NodeId, nat) -> bool, ghost c: Config)
      returns (ghost finally: set<NodeId>, ghost awaiting: bool)
      requires dag.Valid() && ValidConfig(c) && Fits(c, dag, attempt) && maxConcurrency >= 1
      requires Inv(c, StateOf(dag, map[], {}, false, false))
      modifies this`results, dag`status
      ensures dag.Valid()
      ensures Inv(c, StateOf(dag, map[], finally, awaiting, true))
    {
      var completed: set<NodeId> := {};
      var tasks: map<NodeId, Phase> := map[];
      var waiting, ended := false, false;
      while !ended
        invariant dag.Valid()
        invariant Inv(c, StateOf(dag, tasks, completed, waiting, ended))
        decreases Remaining(c, StateOf(dag, tasks, completed, waiting, ended))
      {
        tasks, completed, waiting, ended := Turn(dag, attempt, tasks, completed, waiting, c);
      }
      finally, awaiting := completed, waiting;
    }

    /** The scheduler lets the main loop or any one task go on. */
    method Turn(dag: TaskDAG, attempt: (NodeId, nat) -> bool, tasks: map<NodeId, Phase>, completed: set<NodeId>,
                waiting: bool, ghost c: Config)
      returns (tasks': map<NodeId, Phase>, completed': set<NodeId>, waiting': bool, ended': bool)
      requires dag.Valid() && ValidConfig(c) && Fits(c, dag, attempt) && maxConcurrency >= 1
      requires Inv(c, StateOf(dag, tasks, completed, waiting, false))
      modifies this`results, dag`status
      ensures dag.Valid()
      ensures Inv(c, StateOf(dag, tasks', completed', waiting', ended'))
      ensures Remaining(c, StateOf(dag, tasks', completed', waiting', ended'))
            < Remaining(c, old(StateOf(dag, tasks, completed, waiting, false)))
    {
      tasks', completed', waiting', ended' := tasks, completed, waiting, false;
      SomeoneCanMove(c, StateOf(dag, tasks, completed, waiting, false));
      var returned, movable := Returned(tasks), Movable(tasks, maxConcurrency);
      if {
        case !waiting =>
          tasks', waiting', ended' := TurnLoop(dag, tasks, completed, c);
        case returned != {} =>
          var v :| v in returned;
          tasks', completed' := TurnReap(dag, tasks, completed, waiting, v, c);
          waiting' := false;
        case movable != {} =>
          var v :| v in movable;
          tasks' := TurnTask(dag, attempt, tasks, completed, waiting, v, c);
      }
    }

    method TurnLoop(dag: TaskDAG, tasks: map<NodeId, Phase>, completed: set<NodeId>, ghost c: Config)
      returns (tasks': map<NodeId, Phase>, waiting': bool, ended': bool)
      requires dag.Valid() && ValidConfig(c) && c.g == dag.View()
      requires Inv(c, StateOf(dag, tasks, completed, false, false))
      modifies dag`status
      ensures dag.Valid()
      ensures Inv(c, StateOf(dag, tasks', completed, waiting', ended'))
      ensures Remaining(c, StateOf(dag, tasks', completed, waiting', ended'))
            < Remaining(c, old(StateOf(dag, tasks, completed, false, false)))
    {
      ghost var s := StateOf(dag, tasks, completed, false, false);
      EventInv(c, s, Scan);
      EventCosts(c, s, Scan);
      tasks', waiting', ended' := LoopTurn(dag, tasks, completed, c);
    }

    method TurnReap(dag: TaskDAG, tasks: map<NodeId, Phase>, completed: set<NodeId>, ghost waiting: bool,
                    v: NodeId, ghost c: Config)
      returns (tasks': map<NodeId, Phase>, completed': set<NodeId>)
      requires dag.Valid() && ValidConfig(c) && c.g == dag.View()
      requires Inv(c, StateOf(dag, tasks, completed, waiting, false)) && v in tasks && tasks[v] == Finished
      modifies dag`status
      ensures dag.Valid()
      ensures Inv(c, StateOf(dag, tasks', completed', false, false))
      ensures Remaining(c, StateOf(dag, tasks', completed', false, false))
            < Remaining(c, old(StateOf(dag, tasks, completed, waiting, false)))
    {
      ghost var s := StateOf(dag, tasks, completed, waiting, false);
      EventInv(c, s, Reap(v));
      EventCosts(c, s, Reap(v));
      if s.status[v] == Failed { BelowIsClosed(c, s, v); }
      tasks', completed' := ReapTask(dag, tasks, completed, v, c, waiting);
    }

    method TurnTask(dag: TaskDAG, attempt: (NodeId, nat) -> bool, tasks: map<NodeId, Phase>,
                    ghost completed: set<NodeId>, ghost waiting: bool, v: NodeId, ghost c: Config)
      returns (tasks': map<NodeId, Phase>)
      requires dag.Valid() && ValidConfig(c) && Fits(c, dag, attempt)
      requires Inv(c, StateOf(dag, tasks, completed, waiting, false))
      requires v in Movable(tasks, maxConcurrency)
      modifies this`results, dag`status
      ensures dag.Valid()
      ensures Inv(c, StateOf(dag, tasks', completed, waiting, false))
      ensures Remaining(c, StateOf(dag, tasks', completed, waiting, false))
            < Remaining(c, old(StateOf(dag, tasks, completed, waiting, false)))
    {
      ghost var s := StateOf(dag, tasks, completed, waiting, false);
      ghost var e := NextEvent(c, s, v);
      AdvanceEnabled(c, s, v);
      EventInv(c, s, e);
      EventCosts(c, s, e);
      tasks' := Advance(dag, tasks, v, attempt, c, s, e);
    }

    /** One turn of the main loop, up to its await. */
    method LoopTurn(dag: TaskDAG, tasks: map<NodeId, Phase>, completed: set<NodeId>, ghost c: Config)
      returns (tasks': map<NodeId, Phase>, waiting: bool, ended: bool)
      requires dag.Valid() && c.g == dag.View() && completed <= dag.nodes.Keys
      modifies dag`status
      ensures dag.Valid()
      ensures StateOf(dag, tasks', completed, waiting, ended)
           == ApplyScan(c, old(StateOf(dag, tasks, completed, false, false)))
    {
      ghost var s := StateOf(dag, tasks, completed, false, false);
      DistinctCount(dag.order);
      if |completed| >= |dag.nodes| {
        return tasks, false, true;
      }
      tasks' := ScanTurn(dag, tasks, completed, c, s);
      waiting, ended := tasks' != map[], tasks' == map[];
    }

    /** The scan and the tasks it creates; with nothing to wait for, it is made once more. */
    method ScanTurn(dag: TaskDAG, tasks: map<NodeId, Phase>, completed: set<NodeId>, ghost c: Config, ghost s: State)
      returns (tasks': map<NodeId, Phase>)
      requires dag.Valid() && c.g == dag.View() && |completed| < |c.g.nodes|
      requires s.status == dag.status && s.tasks == tasks && s.completed == completed
      modifies dag`status
      ensures dag.Valid() && dag.status == Scanned(c.g, s.status)
      ensures ApplyScan(c, s) ==
              s.(status := dag.status, tasks := tasks', waiting := tasks' != map[], ended := tasks' == map[])
    {
      var ready := dag.GetReadyNodes();
      tasks' := CreateTasks(ready, tasks, completed);
      ScanCreates(c, s, ready, tasks');
      if tasks' == map[] {
        ready := dag.GetReadyNodes();
        ScanIdempotent(c.g, s.status);
      }
    }

    /** A returned task is taken off the list; a failure is cascaded. */
    method ReapTask(dag: TaskDAG, tasks: map<NodeId, Phase>, completed: set<NodeId>, v: NodeId, ghost c: Config,
                    ghost waiting: bool)
      returns (tasks': map<NodeId, Phase>, completed': set<NodeId>)
      requires dag.Valid() && ValidConfig(c) && c.g == dag.View()
      requires v in dag.status && dag.status[v] == Failed ==>
                 forall w :: w in completed && Reaches(c.g, v, w) ==> Descendants(c.g, w) <= completed
      requires v in tasks && v in dag.status && tasks[v] == Finished
      modifies dag`status
      ensures dag.Valid()
      ensures StateOf(dag, tasks', completed', false, false)
           == ApplyReap(c, old(StateOf(dag, tasks, completed, waiting, false)), v)
    {
      ghost var s := StateOf(dag, tasks, completed, waiting, false);
      completed' := completed + {v};
      tasks' := tasks - {v};
      if dag.status[v] == Failed {
        completed' := CascadeSkip(dag, v, completed');
      }
    }

    /** One event of one task: enter the semaphore, make an attempt, give up, or return. */
    method Advance(dag: TaskDAG, tasks: map<NodeId, Phase>, v: NodeId, attempt: (NodeId, nat) -> bool,
                   ghost c: Config, ghost s: State, ghost e: Event)
      returns (tasks': map<NodeId, Phase>)
      requires dag.Valid() && Fits(c, dag, attempt)
      requires s == StateOf(dag, tasks, s.completed, s.waiting, false)
      requires v in tasks && v in dag.nodes && tasks[v] != Finished && e == NextEvent(c, s, v) && Enabled(c, s, e)
      modifies this`results, dag`status
      ensures dag.Valid()
      ensures StateOf(dag, tasks', s.completed, s.waiting, false) == Apply(c, s, e)
    {
      match tasks[v]
      case Queued =>
        dag.status := dag.status[v := Running];
        tasks' := tasks[v := Active(0)];
      case Active(k) =>
        if k <= dag.nodes[v].maxRetries {
          if attempt(v, k) {
            dag.status := dag.status[v := Completed];
            results := results + [ExecutionResult(v, true)];
            tasks' := tasks[v := Settled];
          } else {
            tasks' := tasks[v := Active(k + 1)];
          }
        } else {
          dag.status := dag.status[v := Failed];
          results := results + [ExecutionResult(v, false)];
          tasks' := tasks[v := Settled];
        }
      case Settled =>
        tasks' := tasks[v := Finished];
    }
  }

  function Returned(tasks: map<NodeId, Phase>): set<NodeId> {
    set v | v in tasks && tasks[v] == Finished
  }

  /** The tasks that have not returned and do not have to wait for a slot. */
  function Movable(tasks: map<NodeId, Phase>, maxConcurrency: int): set<NodeId> {
    set v | v in tasks && tasks[v] != Finished && (tasks[v] == Queued ==> |Holders(tasks)| < maxConcurrency)
  }

  lemma SomeoneCanMove(c: Config, s: State)
    requires Control(c, s) && !s.ended && c.maxConcurrency >= 1
    ensures !s.waiting || Returned(s.tasks) != {} || Movable(s.tasks, c.maxConcurrency) != {}
  {
    if s.waiting {
      if v :| v in Holders(s.tasks) {
        assert v in Movable(s.tasks, c.maxConcurrency);
      } else {
        assert Holders(s.tasks) == {};
        var v :| v in s.tasks;
        assert v in Returned(s.tasks) || v in Movable(s.tasks, c.maxConcurrency);
      }
    }
  }

  lemma AdvanceEnabled(c: Config, s: State, v: NodeId)
    requires v in Movable(s.tasks, c.maxConcurrency)
    ensures Enabled(c, s, NextEvent(c, s, v)) && NextEvent(c, s, v) != Scan && !NextEvent(c, s, v).Reap?
  {
  }

  /** The only event a task that has not returned can be due for. */
  ghost function NextEvent(c: Config, s: State, v: NodeId): Event
    requires v in s.tasks && s.tasks[v] != Finished
  {
    match s.tasks[v]
    case Queued => Acquire(v)
    case Active(k) => if k >= MaxTries(c, v) then GiveUp(v) else if c.succeeds(v, k) then Succeed(v) else Fail(v)
    case Settled => Return(v)
  }

  function Enlist(tasks: map<NodeId, Phase>, news: set<NodeId>): map<NodeId, Phase> {
    tasks + map v | v in news :: Queued
  }

  method CreateTasks(ready: seq<NodeId>, tasks: map<NodeId, Phase>, completed: set<NodeId>)
    returns (tasks': map<NodeId, Phase>)
    ensures tasks' == Enlist(tasks, set v | v in ready && v !in completed && v !in tasks)
  {
    tasks' := tasks;
    ghost var news: set<NodeId> := {};
    for k := 0 to |ready|
      invariant tasks' == Enlist(tasks, news)
      invariant forall v :: v in news <==> v in ready[..k] && v !in completed && v !in tasks
    {
      var v := ready[k];
      assert ready[..k + 1] == ready[..k] + [v];
      if v !in completed && v !in tasks' {
        assert Enlist(tasks, news)[v := Queued] == Enlist(tasks, news + {v});
        tasks' := tasks'[v := Queued];
        news := news + {v};
      }
    }
    assert news == set v | v in ready && v !in completed && v !in tasks;
  }

  /** Creating the tasks of the ready nodes is what a scan adds. */
  lemma ScanCreates(c: Config, s: State, ready: seq<NodeId>, tasks: map<NodeId, Phase>)
    requires |s.completed| < |c.g.nodes| && s.status.Keys == Elements(c.g.nodes)
    requires forall v :: v in ready <==> IsReady(c.g, s.status, v)
    requires tasks == Enlist(s.tasks, set v | v in ready && v !in s.completed && v !in s.tasks)
    ensures ApplyScan(c, s) ==
            s.(status := Scanned(c.g, s.status), tasks := tasks, waiting := tasks != map[], ended := tasks == map[])
  {
    assert (set v | v in ready && v !in s.completed && v !in s.tasks) == Startable(c, s);
  }

  lemma ScanIdempotent(g: Graph, st: Statuses)
    ensures Scanned(g, Scanned(g, st)) == Scanned(g, st)
  {
  }

  /** Whatever below a failed node is completed already has its own descendants completed. */
  lemma BelowIsClosed(c: Config, s: State, v: NodeId)
    requires ValidConfig(c) && Shape(c, s) && Grounded(c, s) && Swept(c, s)
    requires v in s.status && s.status[v] == Failed
    ensures forall w :: w in s.completed && Reaches(c.g, v, w) ==> Descendants(c.g, w) <= s.completed
  {
    BelowFailedUnstarted(c, s, v);
  }

  /** An ended state, in terms of the graph, the retries and the attempts alone. */
  ghost predicate Concluded(g: Graph, nodes: map<NodeId, DagNode>, status: Statuses, attempt: (NodeId, nat) -> bool) {
    status.Keys == nodes.Keys && forall v :: v in nodes ==> ConcludedAt(g, nodes[v].maxRetries, status, attempt, v)
  }

  ghost predicate ConcludedAt(g: Graph, retries: int, st: Statuses, attempt: (NodeId, nat) -> bool, v: NodeId)
    requires v in st
  {
    && (st[v] == Completed ==> exists k: nat :: k <= retries && attempt(v, k))
    && (st[v] == Failed ==> forall k: nat :: k <= retries ==> !attempt(v, k))
    && (st[v] == Skipped <==> exists a :: a in st && st[a] == Failed && Reaches(g, a, v))
    && (Acyclic(g) ==> st[v] == Completed || st[v] == Failed || st[v] == Skipped)
  }

  lemma EndedSpelled(c: Config, s: State, nodes: map<NodeId, DagNode>)
    requires ValidConfig(c) && Inv(c, s) && s.ended
    requires nodes.Keys == c.retries.Keys && forall v :: v in nodes ==> c.retries[v] == nodes[v].maxRetries
    ensures Concluded(c.g, nodes, s.status, c.succeeds)
  {
    forall v | v in nodes ensures v in s.status && ConcludedAt(c.g, nodes[v].maxRetries, s.status, c.succeeds, v) {
      EndedAt(c, s, v);
    }
  }

  lemma EndedAt(c: Config, s: State, v: NodeId)
    requires ValidConfig(c) && Inv(c, s) && s.ended && v in c.g.nodes
    ensures v in s.status && v in c.retries && ConcludedAt(c.g, c.retries[v], s.status, c.succeeds, v)
  {
    AcyclicIff(c.g);
    EndedIsFinal(c, s, v);
    CanSucceedIff(c, v);
    EndedLocally(c, s, v);
    HonestAt(c, s, v);
  }

  lemma HonestAt(c: Config, s: State, v: NodeId)
    requires Honest(c, s) && v in s.status
    ensures s.status[v] == Completed ==> CanSucceed(c, v)
    ensures s.status[v] == Failed ==> !CanSucceed(c, v)
  {
  }

  lemma EndedEverywhere(c: Config, s: State)
    requires ValidConfig(c) && Inv(c, s) && s.ended
    ensures forall v :: v in c.g.nodes ==> s.status[v] == Final(c, v)
    ensures forall r :: r in s.results <==>
              r.node in c.g.nodes && Final(c, r.node) == if r.success then Completed else Failed
    ensures forall i, j :: 0 <= i < j < |s.results| ==> s.results[i].node != s.results[j].node
  {
    forall v | v in c.g.nodes ensures s.status[v] == Final(c, v) {
      EndedIsFinal(c, s, v);
    }
    ResultsFinal(c, s);
  }
}
