/** The task graph of `zilli/dag/engine.py`: construction, the three runs of Kahn's
    algorithm, the longest-path pass and the readiness scan. */
module TaskDag {
  import opened Common
  import opened DagGraph
  import opened DagTheory
  import opened NameOrder
  import opened DagOrder

  /** The source also declares READY, which no operation ever assigns. */
  datatype NodeStatus = Pending | Running | Completed | Failed | Skipped

  datatype TaskType = Codegen | Train | Evaluate | Deploy | Test | Custom

  /** The fields of a node that no operation of the engine changes. */
  datatype DagNode = DagNode(
    taskId: NodeId, description: string, taskType: TaskType, domainTags: seq<string>,
    complexity: string, cost: real, latency: real, privacyLevel: int,
    inputSpec: map<string, string>, outputSpec: map<string, string>, complianceTags: seq<string>, hint: string,
    maxRetries: int, backoff: real)

  datatype Outcome = Done | DuplicateNode | SelfLoop | SourceNotFound | TargetNotFound

  datatype Validation = Validation(
    valid: bool, missing: set<NodeId>, topoOrder: seq<NodeId>,
    criticalPath: seq<NodeId>, parallelGroups: seq<seq<NodeId>>)

  /** A default dictionary of lists: a missing key reads as the empty list. */
  function Lookup(lists: map<NodeId, seq<NodeId>>, n: NodeId): seq<NodeId> {
    if n in lists then lists[n] else []
  }

  // ----- removing a node -----

  function EdgesWithout(edges: seq<Edge>, n: NodeId): seq<Edge> {
    if edges == [] then [] else
      var last := edges[|edges| - 1];
      EdgesWithout(edges[..|edges| - 1], n) + (if last.source == n || last.target == n then [] else [last])
  }

  lemma {:induction false} EdgesWithoutHas(edges: seq<Edge>, n: NodeId, e: Edge)
    ensures e in EdgesWithout(edges, n) <==> e in edges && e.source != n && e.target != n
  {
    if edges != [] {
      var rest := edges[..|edges| - 1];
      EdgesWithoutHas(rest, n, e);
      assert edges == rest + [edges[|edges| - 1]];
    }
  }

  /** Every other edge stays as often as it was there. */
  lemma {:induction false} EdgesWithoutCount(edges: seq<Edge>, n: NodeId, e: Edge)
    ensures multiset(EdgesWithout(edges, n))[e] == if e.source == n || e.target == n then 0 else multiset(edges)[e]
  {
    if edges != [] {
      var rest := edges[..|edges| - 1];
      EdgesWithoutCount(rest, n, e);
      assert edges == rest + [edges[|edges| - 1]];
    }
  }

  lemma WithoutSnoc(s: seq<NodeId>, x: NodeId, n: NodeId)
    ensures Without(s + [x], n) == if x == n then Without(s, n) else Without(s, n) + [x]
  {
    assert (s + [x])[..|s|] == s;
  }

  /** Deleting one occurrence of n changes nothing that deleting all would keep. */
  lemma {:induction false} WithoutOne(s: seq<NodeId>, n: NodeId, i: nat)
    requires i < |s| && s[i] == n
    ensures Without(s[..i] + s[i + 1..], n) == Without(s, n)
  {
    var last := s[|s| - 1];
    var t := s[..|s| - 1];
    if i == |t| {
      assert s[..i] + s[i + 1..] == t;
    } else {
      WithoutOne(t, n, i);
      assert s[..i] + s[i + 1..] == (t[..i] + t[i + 1..]) + [last];
      WithoutSnoc(t[..i] + t[i + 1..], last, n);
    }
  }

  lemma {:induction false} WithoutAbsent(s: seq<NodeId>, n: NodeId)
    requires n !in s
    ensures Without(s, n) == s
  {
    if s != [] {
      var t := s[..|s| - 1];
      assert s == t + [s[|s| - 1]];
      WithoutAbsent(t, n);
    }
  }

  lemma EdgesWithoutSnoc(edges: seq<Edge>, e: Edge, n: NodeId)
    ensures EdgesWithout(edges + [e], n)
         == if e.source == n || e.target == n then EdgesWithout(edges, n) else EdgesWithout(edges, n) + [e]
  {
    assert (edges + [e])[..|edges|] == edges;
  }

  /** Filtering the edges and filtering the adjacency lists agree. */
  ghost predicate ChildrenFiltered(edges: seq<Edge>, n: NodeId, m: NodeId) {
    Children(EdgesWithout(edges, n), m) == if m == n then [] else Without(Children(edges, m), n)
  }

  ghost predicate ParentsFiltered(edges: seq<Edge>, n: NodeId, m: NodeId) {
    Parents(EdgesWithout(edges, n), m) == if m == n then [] else Without(Parents(edges, m), n)
  }

  lemma {:induction false} ChildrenWithout(edges: seq<Edge>, n: NodeId, m: NodeId)
    ensures ChildrenFiltered(edges, n, m)
    decreases |edges|
  {
    if edges != [] {
      var rest, last := edges[..|edges| - 1], edges[|edges| - 1];
      ChildrenWithout(rest, n, m);
      assert edges == rest + [last];
      ChildrenWithoutSnoc(rest, last, n, m);
    }
  }

  lemma ChildrenWithoutSnoc(rest: seq<Edge>, last: Edge, n: NodeId, m: NodeId)
    requires ChildrenFiltered(rest, n, m)
    ensures ChildrenFiltered(rest + [last], n, m)
  {
    EdgesWithoutSnoc(rest, last, n);
    ListsSnoc(rest, last, m);
    if last.source != n && last.target != n {
      ListsSnoc(EdgesWithout(rest, n), last, m);
    }
    if last.source == m {
      WithoutSnoc(Children(rest, m), last.target, n);
    }
  }

  lemma {:induction false} ParentsWithout(edges: seq<Edge>, n: NodeId, m: NodeId)
    ensures ParentsFiltered(edges, n, m)
    decreases |edges|
  {
    if edges != [] {
      var rest, last := edges[..|edges| - 1], edges[|edges| - 1];
      ParentsWithout(rest, n, m);
      assert edges == rest + [last];
      ParentsWithoutSnoc(rest, last, n, m);
    }
  }

  lemma ParentsWithoutSnoc(rest: seq<Edge>, last: Edge, n: NodeId, m: NodeId)
    requires ParentsFiltered(rest, n, m)
    ensures ParentsFiltered(rest + [last], n, m)
  {
    EdgesWithoutSnoc(rest, last, n);
    ListsSnoc(rest, last, m);
    if last.source != n && last.target != n {
      ListsSnoc(EdgesWithout(rest, n), last, m);
    }
    if last.target == m {
      WithoutSnoc(Parents(rest, m), last.source, n);
    }
  }

  /** Deletes every occurrence of n, one `list.remove` at a time. */
  method RemoveEvery(s: seq<NodeId>, n: NodeId) returns (r: seq<NodeId>)
    ensures r == Without(s, n)
  {
    r := s;
    while n in r
      invariant Without(r, n) == Without(s, n)
      decreases |r|
    {
      var i := 0;
      while r[i] != n
        invariant i < |r| && n !in r[..i]
        decreases |r| - i
      {
        i := i + 1;
      }
      WithoutOne(r, n, i);
      r := r[..i] + r[i + 1..];
    }
    WithoutAbsent(r, n);
  }

  // ----- the readiness scan -----

  type Statuses = map<NodeId, NodeStatus>

  ghost predicate ParentFailed(g: Graph, st: Statuses, v: NodeId) {
    exists u :: Edge(u, v) in g.edges && u in st && st[u] == Failed
  }

  ghost predicate ParentsCompleted(g: Graph, st: Statuses, v: NodeId) {
    forall u :: Edge(u, v) in g.edges ==> u in st && st[u] == Completed
  }

  /** The statuses after the scan: pending nodes with a failed parent become skipped. */
  ghost function Scanned(g: Graph, st: Statuses): Statuses {
    map v | v in st :: if st[v] == Pending && ParentFailed(g, st, v) then Skipped else st[v]
  }

  ghost predicate IsReady(g: Graph, st: Statuses, v: NodeId) {
    v in st && st[v] == Pending && ParentsCompleted(g, st, v)
  }

  /** The ready ones of the listed nodes, in the order of the list. */
  ghost function ReadyAmong(g: Graph, st: Statuses, nodes: seq<NodeId>): seq<NodeId> {
    if nodes == [] then [] else
      var last := nodes[|nodes| - 1];
      ReadyAmong(g, st, nodes[..|nodes| - 1]) + (if IsReady(g, st, last) then [last] else [])
  }

  /** In terms of the edges: pending nodes with a failed parent become skipped, nothing else changes,
      and the ready ones are the pending nodes all of whose parents are completed. */
  lemma ScanSpelled(g: Graph, st: Statuses, v: NodeId)
    requires WellFormed(g) && st.Keys == Elements(g.nodes) && v in st
    ensures v in Scanned(g, st)
    ensures Scanned(g, st)[v]
         == if st[v] == Pending && (exists u :: Edge(u, v) in g.edges && u in st && st[u] == Failed)
            then Skipped else st[v]
    ensures IsReady(g, st, v)
       <==> st[v] == Pending && forall u :: Edge(u, v) in g.edges ==> u in st && st[u] == Completed
  {
  }

  class TaskDAG {
    var nodes: map<NodeId, DagNode>
    var order: seq<NodeId>            // insertion order of the `nodes` dictionary
    var status: Statuses
    var edges: seq<Edge>
    var adj: map<NodeId, seq<NodeId>>
    var reverseAdj: map<NodeId, seq<NodeId>>

    ghost function View(): Graph
      reads `order, `edges
    {
      Graph(order, edges)
    }

    ghost function Latency(): (r: map<NodeId, real>)
      reads `nodes
      ensures r.Keys == nodes.Keys && forall v :: v in nodes ==> r[v] == nodes[v].latency
    {
      map v | v in nodes :: nodes[v].latency
    }

    ghost predicate Valid()
      reads this
    {
      && WellFormed(View())
      && nodes.Keys == status.Keys == Elements(order)
      && (forall v :: v in nodes ==> nodes[v].taskId == v)
      && (forall n :: Lookup(adj, n) == Children(edges, n))
      && (forall n :: Lookup(reverseAdj, n) == Parents(edges, n))
    }

    constructor ()
      ensures Valid() && View() == Graph([], []) && nodes == map[]
    {
      nodes, order, status, edges, adj, reverseAdj := map[], [], map[], [], map[], map[];
    }

    /** The node brings its status along. */
    method AddNode(node: DagNode, nodeStatus: NodeStatus) returns (r: Outcome)
      requires Valid()
      modifies this
      ensures Valid() && edges == old(edges)
      ensures r == if node.taskId in old(nodes) then DuplicateNode else Done
      ensures r.Done? ==> nodes == old(nodes)[node.taskId := node] && order == old(order) + [node.taskId]
      ensures r.Done? ==> status == old(status)[node.taskId := nodeStatus]
      ensures !r.Done? ==> nodes == old(nodes) && order == old(order) && status == old(status)
    {
      if node.taskId in nodes { return DuplicateNode; }
      nodes := nodes[node.taskId := node];
      order := order + [node.taskId];
      status := status[node.taskId := nodeStatus];
      return Done;
    }

    method AddEdge(source: NodeId, target: NodeId) returns (r: Outcome)
      requires Valid()
      modifies this
      ensures Valid() && nodes == old(nodes) && order == old(order) && status == old(status)
      ensures r == if source == target then SelfLoop else if source !in old(nodes) then SourceNotFound
                   else if target !in old(nodes) then TargetNotFound else Done
      ensures edges == if r.Done? then old(edges) + [Edge(source, target)] else old(edges)
    {
      if source == target { return SelfLoop; }
      if source !in nodes { return SourceNotFound; }
      if target !in nodes { return TargetNotFound; }
      IndexEdge(edges, Edge(source, target), adj, reverseAdj);
      edges := edges + [Edge(source, target)];
      adj := adj[source := Lookup(adj, source) + [target]];
      reverseAdj := reverseAdj[target := Lookup(reverseAdj, target) + [source]];
      return Done;
    }

    method RemoveNode(id: NodeId)
      requires Valid()
      modifies this
      ensures Valid()
      ensures nodes == old(nodes) - {id} && status == old(status) - {id}
      ensures order == Without(old(order), id) && edges == EdgesWithout(old(edges), id)
    {
      ghost var g := View();
      ViewWithout(g, id);
      ListsWithout(g.edges, id);
      var adj' := DropFrom(adj, id);
      var reverseAdj' := DropFrom(reverseAdj, id);
      assert forall n :: Lookup(adj', n) == Children(EdgesWithout(g.edges, id), n);
      assert forall n :: Lookup(reverseAdj', n) == Parents(EdgesWithout(g.edges, id), n);
      nodes, status, order := nodes - {id}, status - {id}, Without(order, id);
      edges, adj, reverseAdj := EdgesWithout(edges, id), adj', reverseAdj';
    }

    /** Kahn's algorithm with a first-in first-out queue. */
    method TopoSort() returns (topo: seq<NodeId>)
      requires Valid()
      ensures IsQueueOrder(View(), topo)
    {
      ghost var g := View();
      var inDegree := CountInDegrees();
      var queue := Roots(inDegree);
      topo := [];
      KahnStart(g, inDegree, queue);
      assert [] + queue == queue;
      while queue != []
        invariant KahnState(g, inDegree, topo, queue, [], Elements(topo)) && Queued(g, topo + queue)
        decreases |order| - |topo|
      {
        var nid := queue[0];
        assert topo + queue == topo + [nid] + queue[1..];
        KahnPop(g, inDegree, topo, queue);
        queue, topo := queue[1..], topo + [nid];
        inDegree, queue := Release(nid, inDegree, topo, queue);
        KahnRoom(g, inDegree, topo, queue);
      }
      assert topo + [] == topo;
      KahnFinish(g, inDegree, topo);
    }

    method Roots(inDegree: map<NodeId, int>) returns (queue: seq<NodeId>)
      requires Valid() && inDegree.Keys == Elements(order)
      requires forall v :: v in inDegree ==> inDegree[v] == OpenInto(edges, v, {})
      ensures Distinct(queue) && Queued(View(), queue)
      ensures forall v :: v in queue <==> v in order && inDegree[v] == 0
    {
      queue := [];
      for i := 0 to |order|
        invariant Distinct(queue) && Queued(View(), queue)
        invariant forall v :: v in queue <==> v in order[..i] && inDegree[v] == 0
      {
        if inDegree[order[i]] == 0 {
          RootJoins(View(), inDegree, queue, i);
          queue := queue + [order[i]];
        }
      }
    }

    /** The loop over the children of a listed node. */
    method Release(nid: NodeId, inDegree: map<NodeId, int>, ghost topo: seq<NodeId>, queue: seq<NodeId>)
      returns (inDegree': map<NodeId, int>, queue': seq<NodeId>)
      requires Valid()
      requires KahnState(View(), inDegree, topo, queue, Children(edges, nid), Elements(topo))
      requires Queued(View(), topo + queue) && topo != [] && topo[|topo| - 1] == nid
      ensures KahnState(View(), inDegree', topo, queue', [], Elements(topo)) && Queued(View(), topo + queue')
    {
      ListsHave(edges, nid);
      forall child | child in Lookup(adj, nid) ensures child in inDegree { assert Edge(nid, child) in edges; }
      inDegree', queue' := ReleaseAll(View(), Lookup(adj, nid), inDegree, topo, queue);
    }

    /** The longest-path pass over the topological order, then the walk back along `prev`. */
    method ComputeCriticalPath() returns (path: seq<NodeId>, ghost topo: seq<NodeId>)
      requires Valid()
      ensures path == [] <==> order == []
      ensures IsQueueOrder(View(), topo)
      ensures path != [] ==> IsReported(View(), Latency(), path) && IsFirst(View(), Latency(), topo, path)
    {
      var listed := TopoSort();
      topo := listed;
      if order == [] { return [], topo; }
      ghost var g := View();
      ghost var latency := Latency();
      var dist, prev := RelaxAll(listed);
      var end := FirstFarthest(order, dist);
      path := WalkBackFrom(g, latency, dist, prev, topo, end);
      ReportedEnd(g, latency, dist, topo, end, path);
      FollowedIsFirst(g, latency, dist, prev, topo, path);
    }

    method RelaxAll(topo: seq<NodeId>) returns (dist: map<NodeId, real>, prev: map<NodeId, NodeId>)
      requires Valid() && IsKahnOrder(View(), topo)
      ensures dist.Keys == nodes.Keys
      ensures Traced(View(), Latency(), dist, prev, Elements(topo))
      ensures forall cur :: Relaxed(View(), Latency(), dist, Elements(topo), cur, {})
      ensures FirstParents(View(), Latency(), dist, prev, topo)
    {
      dist := map v | v in nodes :: 0.0;
      prev := map[];
      for i := 0 to |topo|
        invariant dist.Keys == nodes.Keys && PassState(View(), Latency(), topo, i, dist, prev)
      {
        dist, prev := RelaxFrom(topo, i, dist, prev);
      }
      assert topo[..|topo|] == topo;
    }

    method RelaxFrom(topo: seq<NodeId>, i: nat, dist: map<NodeId, real>, prev: map<NodeId, NodeId>)
      returns (dist': map<NodeId, real>, prev': map<NodeId, NodeId>)
      requires Valid() && IsKahnOrder(View(), topo) && i < |topo|
      requires dist.Keys == nodes.Keys && PassState(View(), Latency(), topo, i, dist, prev)
      ensures dist'.Keys == nodes.Keys && PassState(View(), Latency(), topo, i + 1, dist', prev')
    {
      ghost var g := View();
      var nid := topo[i];
      ElementsUpto(topo, i);
      assert Relaxed(g, Latency(), dist, Elements(topo[..i]), nid, {});
      ListsHave(edges, nid);
      forall child | Edge(nid, child) in edges ensures child !in topo[..i + 1] { ChildLater(g, topo, i, child); }
      ListedUpto(topo, i);
      dist', prev' := RelaxChildren(g, Latency(), nid, nodes[nid].latency, Lookup(adj, nid), topo,
                                    Elements(topo[..i]), dist, prev);
    }

    /** Layer by layer: every round takes all remaining nodes of in-degree zero. */
    method ComputeParallelGroups() returns (groups: seq<seq<NodeId>>)
      requires Valid()
      ensures ListGroups(View(), groups)
    {
      ghost var g := View();
      ghost var sets: seq<set<NodeId>> := [];
      var inDegree := CountInDegrees();
      groups := [];
      var remaining := nodes.Keys;
      while remaining != {}
        invariant GroupState(g, inDegree, sets, remaining) && Listed(groups, sets)
        decreases remaining
      {
        var ready := set nid | nid in remaining && inDegree[nid] == 0;
        ZeroIsReady(g, inDegree, sets, remaining, ready);
        if ready == {} { break; }
        var group := SortIds(ready);
        inDegree := CloseGroup(edges, adj, ready, inDegree, Upto(sets));
        GroupsSnoc(g, inDegree, sets, remaining, ready);
        ListedSnoc(groups, sets, group, ready);
        remaining := remaining - ready;
        groups, sets := groups + [group], sets + [ready];
      }
      GroupsEnd(g, inDegree, sets, remaining);
      assert AreGroups(g, sets) && Listed(groups, sets);
    }

    method Validate() returns (r: Validation)
      requires Valid()
      ensures r.valid <==> Acyclic(View())
      ensures IsQueueOrder(View(), r.topoOrder)
      ensures forall v :: v in r.missing <==> AfterCycle(View(), v)
      ensures r.criticalPath == [] <==> order == []
      ensures r.criticalPath != [] ==>
                && IsReported(View(), Latency(), r.criticalPath)
                && IsFirst(View(), Latency(), r.topoOrder, r.criticalPath)
      ensures ListGroups(View(), r.parallelGroups)
    {
      var topo := TopoSort();
      var missing: set<NodeId> := {};
      if |topo| != |order| {
        missing := set v | v in order && v !in topo;
      }
      KahnDecidesAcyclic(View(), topo);
      AcyclicIff(View());
      forall v { KahnMissing(View(), topo, v); }
      var critical, again := ComputeCriticalPath();
      OneQueueOrder(View(), topo, again);
      var groups := ComputeParallelGroups();
      r := Validation(|topo| == |order|, missing, topo, critical, groups);
    }

    /** The readiness scan: it marks children of failed nodes and lists the startable ones. */
    method GetReadyNodes() returns (ready: seq<NodeId>)
      requires Valid()
      modifies this`status
      ensures Valid() && status == Scanned(View(), old(status))
      ensures Distinct(ready) && forall v :: v in ready <==> IsReady(View(), old(status), v)
      ensures ready == ReadyAmong(View(), old(status), order)
    {
      ghost var before := status;
      status, ready := ScanAll(View(), order, status, reverseAdj);
      ReadyAmongDistinct(View(), before, order);
      forall v { ReadyAmongHas(View(), before, order, v); }
    }

    method CountInDegrees() returns (inDegree: map<NodeId, int>)
      requires Valid()
      ensures inDegree.Keys == nodes.Keys
      ensures forall v :: v in inDegree ==> inDegree[v] == OpenInto(edges, v, {})
    {
      inDegree := map v | v in nodes :: 0;
      for i := 0 to |edges|
        invariant inDegree.Keys == nodes.Keys
        invariant forall v :: v in inDegree ==> inDegree[v] == OpenInto(edges[..i], v, {})
      {
        var e := edges[i];
        assert edges[..i + 1] == edges[..i] + [e];
        forall v { OpenSnoc(edges[..i], e, v, {}); }
        assert e in edges;
        inDegree := inDegree[e.target := inDegree[e.target] + 1];
      }
      assert edges[..|edges|] == edges;
    }
  }

  method DropFrom(lists: map<NodeId, seq<NodeId>>, id: NodeId) returns (r: map<NodeId, seq<NodeId>>)
    ensures forall n :: Lookup(r, n) == if n == id then [] else Without(Lookup(lists, n), id)
  {
    r := lists - {id};
    var todo := r.Keys;
    while todo != {}
      invariant todo <= r.Keys == lists.Keys - {id}
      invariant forall n :: n in r ==> r[n] == if n in todo then lists[n] else Without(lists[n], id)
      decreases todo
    {
      var n :| n in todo;
      var shorter := RemoveEvery(r[n], id);
      r := r[n := shorter];
      todo := todo - {n};
    }
  }

  /** The two tests of the scan: some parent failed, all parents completed. */
  method Verdict(ghost g: Graph, st: Statuses, v: NodeId, parents: seq<NodeId>) returns (failed: bool, done: bool)
    requires forall u :: u in parents <==> Edge(u, v) in g.edges
    requires forall u :: u in parents ==> u in st
    ensures failed <==> ParentFailed(g, st, v)
    ensures done <==> ParentsCompleted(g, st, v)
    ensures failed ==> !done
  {
    failed := exists u :: u in parents && st[u] == Failed;
    done := forall u :: u in parents ==> st[u] == Completed;
  }

  method ReleaseAll(ghost g: Graph, children: seq<NodeId>, inDegree: map<NodeId, int>, ghost topo: seq<NodeId>,
                    queue: seq<NodeId>)
    returns (inDegree': map<NodeId, int>, queue': seq<NodeId>)
    requires KahnState(g, inDegree, topo, queue, children, Elements(topo)) && Queued(g, topo + queue)
    requires topo != [] && children == Children(g.edges, topo[|topo| - 1])
    requires forall child :: child in children ==> child in inDegree
    ensures KahnState(g, inDegree', topo, queue', [], Elements(topo)) && Queued(g, topo + queue')
  {
    inDegree', queue' := inDegree, queue;
    ghost var pending := children;
    for k := 0 to |children|
      invariant inDegree'.Keys == inDegree.Keys && pending == children[k..]
      invariant KahnState(g, inDegree', topo, queue', pending, Elements(topo)) && Queued(g, topo + queue')
    {
      inDegree', queue' := ReleaseOne(g, children[k], inDegree', topo, queue', pending, k);
      pending := children[k + 1..];
    }
  }

  method ReleaseOne(ghost g: Graph, child: NodeId, inDegree: map<NodeId, int>, ghost topo: seq<NodeId>,
                    queue: seq<NodeId>,
                    ghost pending: seq<NodeId>, ghost k: nat)
    returns (inDegree': map<NodeId, int>, queue': seq<NodeId>)
    requires Queued(g, topo + queue) && topo != []
    requires k < |Children(g.edges, topo[|topo| - 1])| && pending == Children(g.edges, topo[|topo| - 1])[k..]
    requires pending != [] && pending[0] == child && child in inDegree
    requires KahnState(g, inDegree, topo, queue, pending, Elements(topo))
    ensures inDegree'.Keys == inDegree.Keys
    ensures KahnState(g, inDegree', topo, queue', pending[1..], Elements(topo)) && Queued(g, topo + queue')
  {
    assert pending == [child] + pending[1..];
    KahnVisit(g, inDegree, topo, queue, child, pending[1..]);
    inDegree', queue' := inDegree[child := inDegree[child] - 1], queue;
    if inDegree'[child] == 0 {
      ChildJoins(g, inDegree, inDegree', topo, queue, k);
      queue' := queue' + [child];
    }
  }

  /** One more edge, in the edge list and in both indexes. */
  lemma IndexEdge(edges: seq<Edge>, e: Edge, adj: map<NodeId, seq<NodeId>>, reverseAdj: map<NodeId, seq<NodeId>>)
    requires forall n :: Lookup(adj, n) == Children(edges, n)
    requires forall n :: Lookup(reverseAdj, n) == Parents(edges, n)
    ensures forall n :: Lookup(adj[e.source := Lookup(adj, e.source) + [e.target]], n) == Children(edges + [e], n)
    ensures forall n ::
              Lookup(reverseAdj[e.target := Lookup(reverseAdj, e.target) + [e.source]], n) == Parents(edges + [e], n)
  {
    forall n ensures Lookup(adj[e.source := Lookup(adj, e.source) + [e.target]], n) == Children(edges + [e], n) {
      ListsSnoc(edges, e, n);
    }
    forall n
      ensures Lookup(reverseAdj[e.target := Lookup(reverseAdj, e.target) + [e.source]], n) == Parents(edges + [e], n)
    {
      ListsSnoc(edges, e, n);
    }
  }

  /** The counters hold the open edges into each node, and the decrements still owed to it. */
  ghost predicate Owed(edges: seq<Edge>, inDegree: map<NodeId, int>, done: set<NodeId>, pending: multiset<NodeId>) {
    forall v :: v in inDegree ==> inDegree[v] == OpenInto(edges, v, done) + pending[v]
  }

  lemma PayOne(edges: seq<Edge>, inDegree: map<NodeId, int>, done: set<NodeId>, child: NodeId, rest: seq<NodeId>)
    requires Owed(edges, inDegree, done, multiset([child] + rest)) && child in inDegree
    ensures Owed(edges, inDegree[child := inDegree[child] - 1], done, multiset(rest))
  {
    assert multiset([child] + rest) == multiset{child} + multiset(rest);
  }

  lemma NowOwed(edges: seq<Edge>, inDegree: map<NodeId, int>, done: set<NodeId>, nid: NodeId)
    requires Owed(edges, inDegree, done, multiset{}) && nid !in done
    ensures Owed(edges, inDegree, done + {nid}, multiset(Children(edges, nid)))
  {
    forall v | v in inDegree
      ensures inDegree[v] == OpenInto(edges, v, done + {nid}) + multiset(Children(edges, nid))[v]
    {
      OpenAfter(edges, v, done, nid);
    }
  }

  method Decrement(nid: NodeId, children: seq<NodeId>, inDegree: map<NodeId, int>,
                   ghost edges: seq<Edge>, ghost done: set<NodeId>)
    returns (r: map<NodeId, int>)
    requires nid !in done && children == Children(edges, nid)
    requires forall c :: c in children ==> c in inDegree
    requires Owed(edges, inDegree, done, multiset{})
    ensures r.Keys == inDegree.Keys && Owed(edges, r, done + {nid}, multiset{})
  {
    NowOwed(edges, inDegree, done, nid);
    r := PayAll(children, inDegree, edges, done + {nid});
  }

  method PayAll(children: seq<NodeId>, inDegree: map<NodeId, int>, ghost edges: seq<Edge>, ghost done: set<NodeId>)
    returns (r: map<NodeId, int>)
    requires forall c :: c in children ==> c in inDegree
    requires Owed(edges, inDegree, done, multiset(children))
    ensures r.Keys == inDegree.Keys && Owed(edges, r, done, multiset{})
  {
    r := inDegree;
    assert children[0..] == children;
    for k := 0 to |children|
      invariant r.Keys == inDegree.Keys && Owed(edges, r, done, multiset(children[k..]))
    {
      var child := children[k];
      assert children[k..] == [child] + children[k + 1..];
      PayOne(edges, r, done, child, children[k + 1..]);
      r := r[child := r[child] - 1];
    }
  }

  /** The nodes of a finished group no longer count as open parents. */
  method CloseGroup(ghost edges: seq<Edge>, adj: map<NodeId, seq<NodeId>>, ready: set<NodeId>,
                    inDegree: map<NodeId, int>,
                    ghost done: set<NodeId>)
    returns (r: map<NodeId, int>)
    requires ready !! done && Owed(edges, inDegree, done, multiset{})
    requires forall n :: Lookup(adj, n) == Children(edges, n)
    requires forall e :: e in edges ==> e.target in inDegree
    ensures r.Keys == inDegree.Keys && Owed(edges, r, done + ready, multiset{})
  {
    r := inDegree;
    var todo := ready;
    assert done + (ready - todo) == done;
    while todo != {}
      invariant todo <= ready && r.Keys == inDegree.Keys
      invariant Owed(edges, r, done + (ready - todo), multiset{})
      decreases todo
    {
      var nid :| nid in todo;
      ghost var before := done + (ready - todo);
      ListsHave(edges, nid);
      forall child | child in Lookup(adj, nid) ensures child in r.Keys { assert Edge(nid, child) in edges; }
      r := Decrement(nid, Lookup(adj, nid), r, edges, before);
      assert before + {nid} == done + (ready - (todo - {nid}));
      todo := todo - {nid};
    }
    assert done + (ready - {}) == done + ready;
  }

  /** Each list is the sorted list of its set. */
  ghost predicate Listed(groups: seq<seq<NodeId>>, sets: seq<set<NodeId>>) {
    |groups| == |sets| && forall k :: 0 <= k < |groups| ==> Sorted(groups[k]) && Elements(groups[k]) == sets[k]
  }

  lemma ListedSnoc(groups: seq<seq<NodeId>>, sets: seq<set<NodeId>>, group: seq<NodeId>, ready: set<NodeId>)
    requires Listed(groups, sets) && Sorted(group) && Elements(group) == ready
    ensures Listed(groups + [group], sets + [ready])
  {
  }

  ghost predicate ListGroups(g: Graph, groups: seq<seq<NodeId>>) {
    exists sets :: AreGroups(g, sets) && Listed(groups, sets)
  }

  /** The groups so far, the nodes still outside them, and their open in-degrees. */
  ghost predicate GroupState(g: Graph, inDegree: map<NodeId, int>, groups: seq<set<NodeId>>, remaining: set<NodeId>) {
    && inDegree.Keys == Elements(g.nodes)
    && Upto(groups) <= Elements(g.nodes) && remaining == Elements(g.nodes) - Upto(groups)
    && (forall k :: 0 <= k < |groups| ==> groups[k] != {} && groups[k] == ReadyAfter(g, Upto(groups[..k])))
    && (forall v :: v in inDegree ==> inDegree[v] == OpenInto(g.edges, v, Upto(groups)))
  }

  lemma ZeroIsReady(g: Graph, inDegree: map<NodeId, int>, groups: seq<set<NodeId>>, remaining: set<NodeId>,
                    ready: set<NodeId>)
    requires GroupState(g, inDegree, groups, remaining)
    requires ready == set nid | nid in remaining && inDegree[nid] == 0
    ensures ready == ReadyAfter(g, Upto(groups))
  {
    var done := Upto(groups);
    forall v ensures OpenInto(g.edges, v, done) == 0 <==> forall u :: Edge(u, v) in g.edges ==> u in done {
      NoneOpen(g.edges, v, done);
    }
    forall v ensures v in ready <==> v in ReadyAfter(g, done) {}
  }

  lemma GroupsSnoc(g: Graph, inDegree: map<NodeId, int>, groups: seq<set<NodeId>>, remaining: set<NodeId>,
                   ready: set<NodeId>)
    requires inDegree.Keys == Elements(g.nodes)
    requires Upto(groups) <= Elements(g.nodes) && remaining == Elements(g.nodes) - Upto(groups)
    requires forall k :: 0 <= k < |groups| ==> groups[k] != {} && groups[k] == ReadyAfter(g, Upto(groups[..k]))
    requires ready != {} && ready == ReadyAfter(g, Upto(groups))
    requires forall v :: v in inDegree ==> inDegree[v] == OpenInto(g.edges, v, Upto(groups) + ready)
    ensures GroupState(g, inDegree, groups + [ready], remaining - ready)
  {
    var next := groups + [ready];
    assert next[..|groups|] == groups;
    assert Upto(next) == Upto(groups) + ready;
    forall k | 0 <= k < |next| ensures next[k] != {} && next[k] == ReadyAfter(g, Upto(next[..k])) {
      if k < |groups| { assert next[..k] == groups[..k]; }
    }
  }

  lemma GroupsEnd(g: Graph, inDegree: map<NodeId, int>, groups: seq<set<NodeId>>, remaining: set<NodeId>)
    requires GroupState(g, inDegree, groups, remaining)
    requires remaining == {} || (set nid | nid in remaining && inDegree[nid] == 0) == {}
    ensures AreGroups(g, groups)
  {
    ZeroIsReady(g, inDegree, groups, remaining, set nid | nid in remaining && inDegree[nid] == 0);
  }

  /** The first i nodes of the order have been passed on to their children. */
  ghost predicate PassState(g: Graph, latency: map<NodeId, real>, topo: seq<NodeId>, i: nat,
                            dist: map<NodeId, real>, prev: map<NodeId, NodeId>)
    requires WellFormed(g) && latency.Keys == dist.Keys == Elements(g.nodes) && i <= |topo|
  {
    && Traced(g, latency, dist, prev, Elements(topo[..i])) && FirstParents(g, latency, dist, prev, topo)
    && forall cur :: Relaxed(g, latency, dist, Elements(topo[..i]), cur, {})
  }

  /** Relaxing the edges from one node to its children. */
  method RelaxChildren(ghost g: Graph, ghost latency: map<NodeId, real>, nid: NodeId, nidLatency: real,
                       children: seq<NodeId>, ghost topo: seq<NodeId>, ghost done: set<NodeId>,
                       dist: map<NodeId, real>, prev: map<NodeId, NodeId>)
    returns (dist': map<NodeId, real>, prev': map<NodeId, NodeId>)
    requires WellFormed(g) && latency.Keys == dist.Keys == Elements(g.nodes)
    requires nid in latency && latency[nid] == nidLatency
    requires forall c :: c in children <==> Edge(nid, c) in g.edges
    requires forall c :: c in children ==> c !in done && c != nid
    requires Traced(g, latency, dist, prev, done) && Relaxed(g, latency, dist, done, nid, {})
    requires FirstParents(g, latency, dist, prev, topo)
    requires ListedFirst(topo, done + {nid}) && !Ahead(topo, nid, nid)
    ensures dist'.Keys == dist.Keys && FirstParents(g, latency, dist', prev', topo)
    ensures Traced(g, latency, dist', prev', done + {nid})
    ensures forall cur :: Relaxed(g, latency, dist', done + {nid}, cur, {})
  {
    dist', prev' := RelaxLoop(g, latency, nid, nidLatency, children, topo, done, dist, prev);
  }

  method RelaxLoop(ghost g: Graph, ghost latency: map<NodeId, real>, nid: NodeId, nidLatency: real,
                   children: seq<NodeId>, ghost topo: seq<NodeId>, ghost done: set<NodeId>,
                   dist: map<NodeId, real>, prev: map<NodeId, NodeId>)
    returns (dist': map<NodeId, real>, prev': map<NodeId, NodeId>)
    requires RelaxState(g, latency, dist, prev, topo, done, nid, {}) && latency[nid] == nidLatency
    requires forall k :: 0 <= k < |children| ==> CanRelax(g, done, nid, children[k])
    ensures RelaxState(g, latency, dist', prev', topo, done, nid, Elements(children))
  {
    dist', prev' := dist, prev;
    ghost var visited: set<NodeId> := {};
    for k := 0 to |children|
      invariant visited == Elements(children[..k])
      invariant RelaxState(g, latency, dist', prev', topo, done, nid, visited)
    {
      ElementsUpto(children, k);
      assert CanRelax(g, done, nid, children[k]);
      dist', prev' := RelaxEdge(g, latency, nid, nidLatency, children[k], topo, done, visited, dist', prev');
      visited := visited + {children[k]};
    }
    assert children[..|children|] == children;
  }

  method RelaxEdge(ghost g: Graph, ghost latency: map<NodeId, real>, nid: NodeId, nidLatency: real, child: NodeId,
                   ghost topo: seq<NodeId>, ghost done: set<NodeId>, ghost visited: set<NodeId>,
                   dist: map<NodeId, real>, prev: map<NodeId, NodeId>)
    returns (dist': map<NodeId, real>, prev': map<NodeId, NodeId>)
    requires RelaxState(g, latency, dist, prev, topo, done, nid, visited) && latency[nid] == nidLatency
    requires CanRelax(g, done, nid, child)
    ensures RelaxState(g, latency, dist', prev', topo, done, nid, visited + {child})
  {
    var d := dist[nid] + nidLatency;
    if d > dist[child] {
      RelaxBetter(g, latency, dist, prev, topo, done, nid, visited, child, d);
      dist', prev' := dist[child := d], prev[child := nid];
    } else {
      dist', prev' := dist, prev;
    }
  }

  ghost predicate CanRelax(g: Graph, done: set<NodeId>, nid: NodeId, child: NodeId) {
    Edge(nid, child) in g.edges && child !in done && child != nid
  }

  /** All edges out of `done` are relaxed, and those from nid to the visited children. */
  ghost predicate RelaxState(g: Graph, latency: map<NodeId, real>, dist: map<NodeId, real>, prev: map<NodeId, NodeId>,
                             topo: seq<NodeId>, done: set<NodeId>, nid: NodeId, visited: set<NodeId>)
  {
    && WellFormed(g) && latency.Keys == dist.Keys == Elements(g.nodes) && nid in dist
    && Traced(g, latency, dist, prev, done + {nid}) && Relaxed(g, latency, dist, done, nid, visited)
    && FirstParents(g, latency, dist, prev, topo) && ListedFirst(topo, done + {nid}) && !Ahead(topo, nid, nid)
  }

  lemma RelaxBetter(g: Graph, latency: map<NodeId, real>, dist: map<NodeId, real>, prev: map<NodeId, NodeId>,
                    topo: seq<NodeId>, done: set<NodeId>, nid: NodeId, visited: set<NodeId>, child: NodeId, d: real)
    requires RelaxState(g, latency, dist, prev, topo, done, nid, visited) && CanRelax(g, done, nid, child)
    requires child in dist && d == dist[nid] + latency[nid] > dist[child]
    ensures RelaxState(g, latency, dist[child := d], prev[child := nid], topo, done, nid, visited + {child})
  {
    FirstVisit(g, latency, dist, prev, topo, done, nid, visited, child, d);
    RelaxedVisit(g, latency, dist, d, done, nid, visited, child);
    TracedVisit(g, latency, dist, prev, done + {nid}, nid, child, d);
  }

  /** The first node with the largest distance. */
  method FirstFarthest(order: seq<NodeId>, dist: map<NodeId, real>) returns (end: NodeId)
    requires order != [] && forall v :: v in order ==> v in dist
    ensures end in order && forall v :: v in order ==> dist[v] <= dist[end]
    ensures exists i :: FirstOf(order, dist, end, i)
  {
    end := order[0];
    ghost var at := 0;
    for i := 1 to |order|
      invariant 0 <= at < i && order[at] == end
      invariant forall j :: 0 <= j < i ==> dist[order[j]] <= dist[end]
      invariant forall j :: 0 <= j < at ==> dist[order[j]] < dist[end]
    {
      if dist[order[i]] > dist[end] {
        end := order[i];
        at := i;
      }
    }
    assert FirstOf(order, dist, end, at);
  }

  ghost predicate FirstOf(order: seq<NodeId>, dist: map<NodeId, real>, end: NodeId, i: int) {
    && 0 <= i < |order| && order[i] == end && end in dist
    && forall j :: 0 <= j < i ==> order[j] in dist && dist[order[j]] < dist[end]
  }

  /** A path to the first farthest node, weighing its distance, is the reported one. */
  lemma ReportedEnd(g: Graph, latency: map<NodeId, real>, dist: map<NodeId, real>, topo: seq<NodeId>, end: NodeId,
                    path: seq<NodeId>)
    requires WellFormed(g) && latency.Keys == dist.Keys == Elements(g.nodes) && IsKahnOrder(g, topo)
    requires forall cur :: Relaxed(g, latency, dist, Elements(topo), cur, {})
    requires end in dist && forall v :: v in dist ==> 0.0 <= dist[v] <= dist[end]
    requires IsPath(g, path) && HeadWeight(latency, path) == dist[end] && path[|path| - 1] == end
    requires exists i :: FirstOf(g.nodes, dist, end, i)
    ensures IsReported(g, latency, path)
  {
    var i :| FirstOf(g.nodes, dist, end, i);
    forall p | IsPath(g, p) && HeadClear(g, p)
      ensures HeadWeight(latency, p) <= HeadWeight(latency, path)
      ensures p[|p| - 1] in g.nodes[..i] ==> HeadWeight(latency, p) < HeadWeight(latency, path)
    {
      PassBoundsPath(g, latency, dist, topo, end, p);
    }
    assert EndsFirst(g, latency, path, i);
  }

  /** The walk back from the end node; `prev` leads ever further to the front of the order. */
  method WalkBackFrom(ghost g: Graph, ghost latency: map<NodeId, real>, ghost dist: map<NodeId, real>,
                      prev: map<NodeId, NodeId>, ghost topo: seq<NodeId>, end: NodeId)
    returns (path: seq<NodeId>)
    requires WellFormed(g) && latency.Keys == dist.Keys == Elements(g.nodes) && end in dist
    requires ParentsFirst(g, topo) && Traced(g, latency, dist, prev, Elements(topo))
    ensures IsPath(g, path) && HeadWeight(latency, path) == dist[end] && path[|path| - 1] == end
    ensures Follows(prev, path) && path[0] !in prev
  {
    var current := end;
    path := [end];
    ghost var bound: nat := |topo|;
    assert topo[..|topo|] == topo;
    while current in prev
      invariant path != [] && path[0] == current && path[|path| - 1] == end && Follows(prev, path)
      invariant WalkState(g, latency, dist, prev, topo, dist[end], path, bound)
      decreases bound
    {
      bound := WalkStep(g, latency, dist, prev, topo, dist[end], path, bound);
      current := prev[current];
      path := [current] + path;
    }
  }

  /** The scan has visited the nodes of `seen` only. */
  ghost predicate ScanState(g: Graph, before: Statuses, now: Statuses, seen: set<NodeId>) {
    && before.Keys == now.Keys
    && forall v :: v in before ==> now[v] == if v in seen then Scanned(g, before)[v] else before[v]
  }

  lemma ScanVisit(g: Graph, before: Statuses, now: Statuses, seen: set<NodeId>, v: NodeId)
    requires ScanState(g, before, now, seen) && v in before && v !in seen
    ensures ScanState(g, before, if now[v] == Pending && ParentFailed(g, now, v) then now[v := Skipped] else now,
                      seen + {v})
    ensures IsReady(g, before, v) <==> now[v] == Pending && !ParentFailed(g, now, v) && ParentsCompleted(g, now, v)
  {
    if ParentFailed(g, now, v) {
      var u :| Edge(u, v) in g.edges && u in now && now[u] == Failed;
      assert !ParentsCompleted(g, now, v);
    }
  }

  method ScanNode(ghost g: Graph, ghost before: Statuses, now: Statuses, ghost seen: set<NodeId>, nid: NodeId,
                  parents: seq<NodeId>,
                  ready: seq<NodeId>)
    returns (now': Statuses, ready': seq<NodeId>)
    requires WellFormed(g) && before.Keys == Elements(g.nodes) && parents == Parents(g.edges, nid)
    requires ScanState(g, before, now, seen) && nid in before && nid !in seen
    ensures ScanState(g, before, now', seen + {nid})
    ensures ready' == ready + (if IsReady(g, before, nid) then [nid] else [])
  {
    ListsHave(g.edges, nid);
    ScanVisit(g, before, now, seen, nid);
    now', ready' := now, ready;
    var failed, done := Verdict(g, now, nid, parents);
    if now[nid] == Pending {
      if failed {
        now' := now[nid := Skipped];
      } else if done {
        ready' := ready + [nid];
      }
    }
  }

  method ScanAll(ghost g: Graph, order: seq<NodeId>, st: Statuses, reverseAdj: map<NodeId, seq<NodeId>>)
    returns (now: Statuses, ready: seq<NodeId>)
    requires WellFormed(g) && order == g.nodes && st.Keys == Elements(order)
    requires forall n :: Lookup(reverseAdj, n) == Parents(g.edges, n)
    ensures now == Scanned(g, st) && ready == ReadyAmong(g, st, order)
  {
    now, ready := st, [];
    ghost var seen: set<NodeId> := {};
    for i := 0 to |order|
      invariant seen == Elements(order[..i])
      invariant ScanState(g, st, now, seen) && ready == ReadyAmong(g, st, order[..i])
    {
      var nid := order[i];
      ScanStep(g, st, order, i);
      now, ready := ScanNode(g, st, now, seen, nid, Lookup(reverseAdj, nid), ready);
      seen := seen + {nid};
    }
    assert order[..|order|] == order;
    ScanDone(g, st, now);
  }

  lemma ScanDone(g: Graph, before: Statuses, now: Statuses)
    requires ScanState(g, before, now, Elements(g.nodes)) && before.Keys == Elements(g.nodes)
    ensures now == Scanned(g, before)
  {
  }

  /** The next node to be scanned is a new one. */
  lemma ScanStep(g: Graph, st: Statuses, order: seq<NodeId>, i: nat)
    requires WellFormed(g) && order == g.nodes && i < |order|
    ensures order[i] in Elements(order) && order[i] !in Elements(order[..i])
    ensures ReadyAmong(g, st, order[..i + 1]) == ReadyAmong(g, st, order[..i]) +
            (if IsReady(g, st, order[i]) then [order[i]] else [])
    ensures Elements(order[..i + 1]) == Elements(order[..i]) + {order[i]}
  {
    ElementsUpto(order, i);
    assert order[..i + 1][..i] == order[..i];
  }

  lemma {:induction false} ReadyAmongHas(g: Graph, st: Statuses, nodes: seq<NodeId>, v: NodeId)
    ensures v in ReadyAmong(g, st, nodes) <==> v in nodes && IsReady(g, st, v)
  {
    if nodes != [] {
      var n := |nodes| - 1;
      ReadyAmongHas(g, st, nodes[..n], v);
      assert nodes == nodes[..n] + [nodes[n]];
    }
  }

  lemma {:induction false} ReadyAmongDistinct(g: Graph, st: Statuses, nodes: seq<NodeId>)
    requires Distinct(nodes)
    ensures Distinct(ReadyAmong(g, st, nodes))
  {
    if nodes != [] {
      var n := |nodes| - 1;
      ReadyAmongDistinct(g, st, nodes[..n]);
      ReadyAmongHas(g, st, nodes[..n], nodes[n]);
    }
  }

  lemma ViewWithout(g: Graph, id: NodeId)
    requires WellFormed(g)
    ensures WellFormed(Graph(Without(g.nodes, id), EdgesWithout(g.edges, id)))
    ensures Elements(Without(g.nodes, id)) == Elements(g.nodes) - {id}
  {
    WithoutCount(g.nodes, id);
    forall x { WithoutHas(g.nodes, id, x); }
    forall e { EdgesWithoutHas(g.edges, id, e); }
  }

  lemma ListsWithout(edges: seq<Edge>, id: NodeId)
    ensures forall n :: Children(EdgesWithout(edges, id), n) == if n == id then [] else Without(Children(edges, n), id)
    ensures forall n :: Parents(EdgesWithout(edges, id), n) == if n == id then [] else Without(Parents(edges, n), id)
  {
    forall n ensures Children(EdgesWithout(edges, id), n) == if n == id then [] else Without(Children(edges, n), id) {
      ChildrenWithout(edges, id, n);
      assert ChildrenFiltered(edges, id, n);
    }
    forall n ensures Parents(EdgesWithout(edges, id), n) == if n == id then [] else Without(Parents(edges, n), id) {
      ParentsWithout(edges, id, n);
      assert ParentsFiltered(edges, id, n);
    }
  }

  // ----- the invariant of Kahn's algorithm -----

  /** `topo` is listed, `queue` is waiting, and inDegree counts the open edges of every node
      plus its occurrences among the `pending` children still to be visited. */
  ghost predicate KahnState(g: Graph, inDegree: map<NodeId, int>, topo: seq<NodeId>, queue: seq<NodeId>,
                            pending: seq<NodeId>, done: set<NodeId>)
  {
    && WellFormed(g)
    && inDegree.Keys == Elements(g.nodes)
    && done == Elements(topo)
    && Distinct(topo) && Distinct(queue) && Elements(topo) !! Elements(queue)
    && ParentsFirst(g, topo)
    && (forall v :: v in topo || v in queue <==> v in inDegree && inDegree[v] == 0)
    && (forall v :: v in inDegree ==> inDegree[v] == OpenInto(g.edges, v, done) + multiset(pending)[v])
  }

  lemma KahnStart(g: Graph, inDegree: map<NodeId, int>, queue: seq<NodeId>)
    requires WellFormed(g) && inDegree.Keys == Elements(g.nodes) && Distinct(queue)
    requires forall v :: v in inDegree ==> inDegree[v] == OpenInto(g.edges, v, {})
    requires forall v :: v in queue <==> v in g.nodes && inDegree[v] == 0
    ensures KahnState(g, inDegree, [], queue, [], Elements([]))
  {
    assert Elements<NodeId>([]) == {};
  }

  /** Visiting one child: its count drops, and at zero it joins the queue. */
  lemma KahnVisit(g: Graph, inDegree: map<NodeId, int>, topo: seq<NodeId>, queue: seq<NodeId>,
                  child: NodeId, rest: seq<NodeId>)
    requires KahnState(g, inDegree, topo, queue, [child] + rest, Elements(topo))
    requires child in inDegree
    ensures var inDegree' := inDegree[child := inDegree[child] - 1];
            KahnState(g, inDegree', topo, if inDegree'[child] == 0 then queue + [child] else queue, rest,
                      Elements(topo))
  {
    assert multiset([child] + rest)[child] == multiset(rest)[child] + 1;
    assert forall v :: v != child ==> multiset([child] + rest)[v] == multiset(rest)[v];
    assert inDegree[child] > 0;
    assert child !in topo && child !in queue;
  }

  /** A node without parents joins those added before it. */
  lemma RootJoins(g: Graph, inDegree: map<NodeId, int>, queue: seq<NodeId>, i: nat)
    requires WellFormed(g) && inDegree.Keys == Elements(g.nodes) && i < |g.nodes| && Queued(g, queue)
    requires forall v :: v in inDegree ==> inDegree[v] == OpenInto(g.edges, v, {})
    requires forall v :: v in queue ==> v in g.nodes[..i] && inDegree[v] == 0
    requires inDegree[g.nodes[i]] == 0
    ensures Queued(g, queue + [g.nodes[i]])
  {
    var v := g.nodes[i];
    NoneOpen(g.edges, v, {});
    forall x | x in queue ensures InTurn(g, queue + [v], x, v) {
      NoneOpen(g.edges, x, {});
      var a :| 0 <= a < i && g.nodes[..i][a] == x;
      assert g.nodes[a] == x && AddedBefore(g, x, v);
      RootInTurn(g, queue + [v], x, v);
    }
    QueuedSnoc(g, queue, v);
  }

  /** What is listed or queued has had its turn before a child whose count just reached zero. */
  lemma ChildJoins(g: Graph, before: map<NodeId, int>, inDegree: map<NodeId, int>, topo: seq<NodeId>,
                   queue: seq<NodeId>, k: nat)
    requires topo != [] && k < |Children(g.edges, topo[|topo| - 1])| && Queued(g, topo + queue)
    requires var pending := Children(g.edges, topo[|topo| - 1])[k..];
             && KahnState(g, before, topo, queue, pending, Elements(topo))
             && KahnState(g, inDegree, topo, queue + [pending[0]], pending[1..], Elements(topo))
    ensures Queued(g, topo + (queue + [Children(g.edges, topo[|topo| - 1])[k]]))
  {
    var t, ch := |topo| - 1, Children(g.edges, topo[|topo| - 1]);
    var v := ch[k];
    var all := topo + queue + [v];
    assert all == topo + (queue + [v]);
    forall x | x in topo + queue ensures InTurn(g, all, x, v) {
      ChildJoinsAfter(g, before, inDegree, topo, queue, k, x);
    }
    QueuedSnoc(g, topo + queue, v);
  }

  lemma ChildJoinsAfter(g: Graph, before: map<NodeId, int>, inDegree: map<NodeId, int>, topo: seq<NodeId>,
                        queue: seq<NodeId>, k: nat, x: NodeId)
    requires topo != [] && k < |Children(g.edges, topo[|topo| - 1])| && x in topo + queue
    requires var pending := Children(g.edges, topo[|topo| - 1])[k..];
             && KahnState(g, before, topo, queue, pending, Elements(topo))
             && KahnState(g, inDegree, topo, queue + [pending[0]], pending[1..], Elements(topo))
    ensures var v := Children(g.edges, topo[|topo| - 1])[k]; InTurn(g, topo + queue + [v], x, v)
  {
    var t, ch := |topo| - 1, Children(g.edges, topo[|topo| - 1]);
    var v := ch[k];
    var all := topo + queue + [v];
    assert all[..t + 1] == topo && all[..t] == topo[..t] && all[t] == topo[t];
    QueuedParents(g, before, topo, queue, ch[k..], x);
    QueuedParents(g, inDegree, topo, queue + [v], ch[k..][1..], v);
    AllDistinct(g, inDegree, topo, queue + [v], ch[k..][1..]);
    assert all == topo + (queue + [v]);
    ChildInTurn(g, all, t, k, x);
  }

  lemma AllDistinct(g: Graph, inDegree: map<NodeId, int>, topo: seq<NodeId>, queue: seq<NodeId>,
                    pending: seq<NodeId>)
    requires KahnState(g, inDegree, topo, queue, pending, Elements(topo))
    ensures Distinct(topo + queue)
  {
    forall i, j | 0 <= i < |topo| && 0 <= j < |queue| ensures topo[i] != queue[j] {
      assert topo[i] in Elements(topo) && queue[j] in Elements(queue);
    }
  }

  lemma QueuedParents(g: Graph, inDegree: map<NodeId, int>, topo: seq<NodeId>, queue: seq<NodeId>,
                      pending: seq<NodeId>, x: NodeId)
    requires topo != [] && KahnState(g, inDegree, topo, queue, pending, Elements(topo)) && x in topo + queue
    ensures ParentsIn(g, topo, x) && (ParentsIn(g, topo[..|topo| - 1], x) || x !in pending)
  {
    if x in topo {
      var i :| 0 <= i < |topo| && topo[i] == x;
      assert topo[..|topo| - 1][..i] == topo[..i];
    } else {
      NoneOpen(g.edges, x, Elements(topo));
    }
  }

  lemma KahnPop(g: Graph, inDegree: map<NodeId, int>, topo: seq<NodeId>, queue: seq<NodeId>)
    requires KahnState(g, inDegree, topo, queue, [], Elements(topo)) && queue != []
    ensures KahnState(g, inDegree, topo + [queue[0]], queue[1..], Children(g.edges, queue[0]),
                      Elements(topo + [queue[0]]))
  {
    var n := queue[0];
    var topo', queue' := topo + [n], queue[1..];
    assert Elements(topo') == Elements(topo) + {n};
    assert n in queue && n !in topo;
    assert queue == [n] + queue';
    forall v | v in inDegree
      ensures inDegree[v] == OpenInto(g.edges, v, Elements(topo')) + multiset(Children(g.edges, n))[v]
    {
      OpenAfter(g.edges, v, Elements(topo), n);
    }
    NoneOpen(g.edges, n, Elements(topo));
    forall i, u | 0 <= i < |topo'| && Edge(u, topo'[i]) in g.edges ensures u in topo'[..i] {
      if i < |topo| {
        assert topo'[..i] == topo[..i];
      } else {
        assert topo'[..i] == topo;
      }
    }
  }

  lemma KahnRoom(g: Graph, inDegree: map<NodeId, int>, topo: seq<NodeId>, queue: seq<NodeId>)
    requires KahnState(g, inDegree, topo, queue, [], Elements(topo))
    ensures |topo| <= |g.nodes|
  {
    DistinctCount(topo);
    DistinctCount(g.nodes);
    forall v | v in topo ensures v in g.nodes { assert v in inDegree; }
    SubsetCount(Elements(topo), Elements(g.nodes));
  }

  lemma KahnFinish(g: Graph, inDegree: map<NodeId, int>, topo: seq<NodeId>)
    requires KahnState(g, inDegree, topo, [], [], Elements(topo))
    ensures IsKahnOrder(g, topo)
  {
    forall v {:trigger HasUnlistedParent(g, Elements(topo), v)} | v in g.nodes && v !in Elements(topo)
      ensures HasUnlistedParent(g, Elements(topo), v)
    {
      assert v in inDegree;
      NoneOpen(g.edges, v, Elements(topo));
    }
  }
}
