/** Reference definitions for the two other analyses of the DAG engine: parallel groups
    and the critical path, with the theorems that make them optimal. */
module DagTheory {
  import opened Common
  import opened DagGraph

  // ----- parallel groups -----

  function Upto(groups: seq<set<NodeId>>): set<NodeId> {
    if groups == [] then {} else Upto(groups[..|groups| - 1]) + groups[|groups| - 1]
  }

  /** The nodes outside `done` all of whose parents are in `done`. */
  ghost function ReadyAfter(g: Graph, done: set<NodeId>): set<NodeId> {
    set v | v in g.nodes && v !in done && (forall u :: Edge(u, v) in g.edges ==> u in done)
  }

  ghost predicate AreGroups(g: Graph, groups: seq<set<NodeId>>) {
    && (forall k :: 0 <= k < |groups| ==> groups[k] != {} && groups[k] == ReadyAfter(g, Upto(groups[..k])))
    && ReadyAfter(g, Upto(groups)) == {}
  }

  lemma {:induction false} UptoHas(groups: seq<set<NodeId>>, k: nat)
    requires k < |groups|
    ensures groups[k] <= Upto(groups) && Upto(groups[..k]) <= Upto(groups)
  {
    var rest := groups[..|groups| - 1];
    if k < |rest| {
      UptoHas(rest, k);
      assert rest[..k] == groups[..k];
    }
  }

  lemma {:induction false} UptoWitness(groups: seq<set<NodeId>>, v: NodeId) returns (k: nat)
    requires v in Upto(groups)
    ensures k < |groups| && v in groups[k]
  {
    if v in groups[|groups| - 1] {
      k := |groups| - 1;
    } else {
      k := UptoWitness(groups[..|groups| - 1], v);
    }
  }

  /** A parent of a node of group k sits in an earlier group. */
  lemma EdgeGoesForward(g: Graph, groups: seq<set<NodeId>>, u: NodeId, v: NodeId, k: nat) returns (i: nat)
    requires AreGroups(g, groups) && k < |groups| && v in groups[k] && Edge(u, v) in g.edges
    ensures i < k && u in groups[i]
  {
    i := UptoWitness(groups[..k], u);
  }

  /** The groups are pairwise disjoint. */
  lemma GroupsDisjoint(g: Graph, groups: seq<set<NodeId>>, i: nat, j: nat)
    requires AreGroups(g, groups) && i < j < |groups|
    ensures groups[i] !! groups[j]
  {
    UptoHas(groups[..j], i);
  }

  /** Every path ending in group k has at most k + 1 nodes. */
  lemma {:induction false} PathFitsGroups(g: Graph, groups: seq<set<NodeId>>, p: seq<NodeId>, k: nat)
    requires AreGroups(g, groups) && IsPath(g, p) && k < |groups| && p[|p| - 1] in groups[k]
    ensures |p| <= k + 1
    decreases |p|
  {
    if |p| >= 2 {
      var q := p[..|p| - 1];
      assert Edge(p[(|p| - 1) - 1], p[|p| - 1]) in g.edges;
      var i := EdgeGoesForward(g, groups, p[|p| - 2], p[|p| - 1], k);
      assert IsPath(g, q);
      PathFitsGroups(g, groups, q, i);
    }
  }

  /** Every node of group k is the end of a path with exactly k + 1 nodes. */
  lemma {:induction false} GroupHasPath(g: Graph, groups: seq<set<NodeId>>, v: NodeId, k: nat) returns (p: seq<NodeId>)
    requires WellFormed(g) && AreGroups(g, groups) && k < |groups| && v in groups[k]
    ensures IsPath(g, p) && |p| == k + 1 && p[k] == v
    decreases k
  {
    if k == 0 {
      p := [v];
    } else {
      var before := groups[..k];
      assert before[..k - 1] == groups[..k - 1];
      assert Upto(before) == Upto(groups[..k - 1]) + groups[k - 1];
      assert v !in ReadyAfter(g, Upto(groups[..k - 1]));
      var u :| Edge(u, v) in g.edges && u !in Upto(groups[..k - 1]);
      var q := GroupHasPath(g, groups, u, k - 1);
      ExtendPath(g, q, v);
      p := q + [v];
    }
  }

  /** The groups together hold exactly the nodes that are not behind a cycle. */
  lemma GroupsCover(g: Graph, groups: seq<set<NodeId>>, v: NodeId)
    requires WellFormed(g) && AreGroups(g, groups)
    ensures v in Upto(groups) <==> v in g.nodes && !AfterCycle(g, v)
  {
    if v in Upto(groups) {
      var k := UptoWitness(groups, v);
      if AfterCycle(g, v) { GroupAvoidsCycle(g, groups, v, k); }
    } else if v in g.nodes {
      forall w {:trigger HasUnlistedParent(g, Upto(groups), w)} | w in g.nodes && w !in Upto(groups)
        ensures HasUnlistedParent(g, Upto(groups), w)
      {
        assert w !in ReadyAfter(g, Upto(groups));
      }
      UnlistedBehindCycle(g, Upto(groups), v);
    }
  }

  lemma {:induction false} GroupAvoidsCycle(g: Graph, groups: seq<set<NodeId>>, v: NodeId, k: nat)
    requires WellFormed(g) && AreGroups(g, groups) && k < |groups| && v in groups[k]
    ensures !AfterCycle(g, v)
    decreases k
  {
    if AfterCycle(g, v) {
      var w := AfterCycleParent(g, v);
      var i := EdgeGoesForward(g, groups, w, v, k);
      GroupAvoidsCycle(g, groups, w, i);
    }
  }

  /** A layering with m levels: every edge leads to a strictly higher level. */
  ghost predicate IsLayering(g: Graph, level: map<NodeId, nat>, m: nat) {
    && (forall v :: v in g.nodes ==> v in level && level[v] < m)
    && (forall e :: e in g.edges && e.source in level && e.target in level ==> level[e.source] < level[e.target])
  }

  lemma {:induction false} LayeringBoundsPath(g: Graph, level: map<NodeId, nat>, m: nat, p: seq<NodeId>)
    requires WellFormed(g) && IsLayering(g, level, m) && IsPath(g, p)
    ensures p[|p| - 1] in level && |p| <= level[p[|p| - 1]] + 1
    decreases |p|
  {
    PathNodes(g, p);
    if |p| >= 2 {
      var q := p[..|p| - 1];
      assert Edge(p[(|p| - 1) - 1], p[|p| - 1]) in g.edges;
      assert IsPath(g, q);
      LayeringBoundsPath(g, level, m, q);
    }
  }

  /** No layering has fewer levels than there are groups. */
  lemma FewestGroups(g: Graph, groups: seq<set<NodeId>>, level: map<NodeId, nat>, m: nat)
    requires WellFormed(g) && AreGroups(g, groups) && IsLayering(g, level, m)
    ensures |groups| <= m
  {
    if groups != [] {
      var k := |groups| - 1;
      var v :| v in groups[k];
      var p := GroupHasPath(g, groups, v, k);
      PathNodes(g, p);
      LayeringBoundsPath(g, level, m, p);
    }
  }

  /** On an acyclic graph the number of groups is the node count of a longest path. */
  lemma GroupCountIsLongestPath(g: Graph, groups: seq<set<NodeId>>)
    requires WellFormed(g) && AreGroups(g, groups) && Acyclic(g)
    ensures forall p :: IsPath(g, p) ==> |p| <= |groups|
    ensures groups != [] ==> exists p :: IsPath(g, p) && |p| == |groups|
  {
    AcyclicIff(g);
    forall p | IsPath(g, p) ensures |p| <= |groups| {
      PathNodes(g, p);
      var last := p[|p| - 1];
      GroupsCover(g, groups, last);
      var k := UptoWitness(groups, last);
      PathFitsGroups(g, groups, p, k);
    }
    if groups != [] {
      var v :| v in groups[|groups| - 1];
      var p := GroupHasPath(g, groups, v, |groups| - 1);
    }
  }

  // ----- critical path -----

  /** The engine's weight of a path: the latencies of all its nodes but the last. */
  ghost function HeadWeight(latency: map<NodeId, real>, p: seq<NodeId>): real {
    if |p| <= 1 then 0.0 else (if p[0] in latency then latency[p[0]] else 0.0) + HeadWeight(latency, p[1..])
  }

  /** No node of the path, except possibly its last, is behind a cycle. */
  ghost predicate HeadClear(g: Graph, p: seq<NodeId>) {
    forall i :: 0 <= i < |p| - 1 ==> !AfterCycle(g, p[i])
  }

  /** A real path that no path with a clear head outweighs; on an acyclic graph, no path at all. */
  ghost predicate IsHeaviest(g: Graph, latency: map<NodeId, real>, path: seq<NodeId>) {
    && IsPath(g, path)
    && forall p :: IsPath(g, p) && HeadClear(g, p) ==> HeadWeight(latency, p) <= HeadWeight(latency, path)
  }

  /** The heaviest path that the engine reports ends at the first node, in the order of the
      graph, at which any heaviest path ends. */
  ghost predicate IsReported(g: Graph, latency: map<NodeId, real>, path: seq<NodeId>) {
    IsHeaviest(g, latency, path) && exists i :: EndsFirst(g, latency, path, i)
  }

  ghost predicate EndsFirst(g: Graph, latency: map<NodeId, real>, path: seq<NodeId>, i: int) {
    && 0 <= i < |g.nodes| && |path| > 0 && path[|path| - 1] == g.nodes[i]
    && forall p :: IsPath(g, p) && HeadClear(g, p) && p[|p| - 1] in g.nodes[..i] ==>
          HeadWeight(latency, p) < HeadWeight(latency, path)
  }

  /** On an acyclic graph that fixes where the path ends and what it weighs. */
  lemma ReportedAlike(g: Graph, latency: map<NodeId, real>, p: seq<NodeId>, q: seq<NodeId>)
    requires WellFormed(g) && Acyclic(g) && IsReported(g, latency, p) && IsReported(g, latency, q)
    ensures p[|p| - 1] == q[|q| - 1] && HeadWeight(latency, p) == HeadWeight(latency, q)
  {
    AcyclicIff(g);
    assert HeadClear(g, p) && HeadClear(g, q);
    var i :| EndsFirst(g, latency, p, i);
    var j :| EndsFirst(g, latency, q, j);
    assert i == j;
  }

  /** Edges out of `done`, and those from `cur` to a node of `visited`, are relaxed. */
  ghost predicate Relaxed(g: Graph, latency: map<NodeId, real>, dist: map<NodeId, real>,
                          done: set<NodeId>, cur: NodeId, visited: set<NodeId>)
    requires WellFormed(g) && latency.Keys == dist.Keys == Elements(g.nodes)
  {
    forall e :: e in g.edges && (e.source in done || (e.source == cur && e.target in visited))
            ==> dist[e.source] + latency[e.source] <= dist[e.target]
  }

  /** `prev` records, for each node with a positive distance, the edge that set it. */
  ghost predicate Traced(g: Graph, latency: map<NodeId, real>, dist: map<NodeId, real>, prev: map<NodeId, NodeId>,
                         from: set<NodeId>)
    requires latency.Keys == dist.Keys == Elements(g.nodes)
  {
    && (forall v :: v in prev ==> v in dist && prev[v] in dist && prev[v] in from && Edge(prev[v], v) in g.edges)
    && (forall v :: v in prev ==> dist[v] == dist[prev[v]] + latency[prev[v]])
    && (forall v :: v in dist ==> dist[v] >= 0.0 && (v !in prev ==> dist[v] == 0.0))
  }

  lemma RelaxedVisit(g: Graph, latency: map<NodeId, real>, dist: map<NodeId, real>, d: real,
                     done: set<NodeId>, cur: NodeId, visited: set<NodeId>, child: NodeId)
    requires WellFormed(g) && latency.Keys == dist.Keys == Elements(g.nodes)
    requires Relaxed(g, latency, dist, done, cur, visited)
    requires cur in dist && child in dist && child !in done && child != cur
    requires d >= dist[child] && d >= dist[cur] + latency[cur]
    ensures Relaxed(g, latency, dist[child := d], done, cur, visited + {child})
  {
    var dist' := dist[child := d];
    forall e | e in g.edges && (e.source in done || (e.source == cur && e.target in visited + {child}))
      ensures dist'[e.source] + latency[e.source] <= dist'[e.target]
    {
      assert e.source != child;
    }
  }

  lemma TracedVisit(g: Graph, latency: map<NodeId, real>, dist: map<NodeId, real>, prev: map<NodeId, NodeId>,
                    from: set<NodeId>, cur: NodeId, child: NodeId, d: real)
    requires latency.Keys == dist.Keys == Elements(g.nodes) && Traced(g, latency, dist, prev, from)
    requires cur in from && cur in dist && child in dist && child !in from && Edge(cur, child) in g.edges
    requires d == dist[cur] + latency[cur] > dist[child]
    ensures Traced(g, latency, dist[child := d], prev[child := cur], from)
  {
  }

  /** Children of a node of a Kahn order come after it. */
  lemma ChildLater(g: Graph, topo: seq<NodeId>, i: nat, child: NodeId)
    requires WellFormed(g) && Distinct(topo) && ParentsFirst(g, topo) && i < |topo|
    requires Edge(topo[i], child) in g.edges
    ensures child !in topo[..i + 1]
  {
  }

  /** The walk back along `prev`: the start's distance plus the path's weight is the goal's
      distance, and the next parent lies within the first `bound` nodes of the order. */
  ghost predicate WalkState(g: Graph, latency: map<NodeId, real>, dist: map<NodeId, real>, prev: map<NodeId, NodeId>,
                            topo: seq<NodeId>, goal: real, path: seq<NodeId>, bound: nat)
  {
    && IsPath(g, path) && path[0] in dist && bound <= |topo|
    && dist[path[0]] + HeadWeight(latency, path) == goal
    && (path[0] in prev ==> prev[path[0]] in topo[..bound])
  }

  lemma WalkStep(g: Graph, latency: map<NodeId, real>, dist: map<NodeId, real>, prev: map<NodeId, NodeId>,
                 topo: seq<NodeId>, goal: real, path: seq<NodeId>, bound: nat) returns (j: nat)
    requires WellFormed(g) && latency.Keys == dist.Keys == Elements(g.nodes)
    requires ParentsFirst(g, topo) && Traced(g, latency, dist, prev, Elements(topo))
    requires WalkState(g, latency, dist, prev, topo, goal, path, bound) && path[0] in prev
    ensures j < bound
    ensures WalkState(g, latency, dist, prev, topo, goal, [prev[path[0]]] + path, j)
  {
    var parent := prev[path[0]];
    j :| 0 <= j < bound && topo[j] == parent;
    PrependPath(g, parent, path);
    assert ([parent] + path)[1..] == path;
    if parent in prev { assert Edge(prev[parent], topo[j]) in g.edges; }
  }

  /** Settled distances bound the weight of every path with a clear head. */
  lemma {:induction false} PassBoundsPath(g: Graph, latency: map<NodeId, real>, dist: map<NodeId, real>,
                                          topo: seq<NodeId>, cur: NodeId, p: seq<NodeId>)
    requires WellFormed(g) && latency.Keys == dist.Keys == Elements(g.nodes) && IsKahnOrder(g, topo)
    requires Relaxed(g, latency, dist, Elements(topo), cur, {})
    requires IsPath(g, p) && HeadClear(g, p)
    ensures p[0] in dist && p[|p| - 1] in dist
    ensures dist[p[0]] + HeadWeight(latency, p) <= dist[p[|p| - 1]]
    decreases |p|
  {
    PathNodes(g, p);
    if |p| >= 2 {
      SubPath(g, p, 1, |p|);
      var q := p[1..];
      assert q == p[1..|p|];
      assert Edge(p[1 - 1], p[1]) in g.edges;
      forall i | 0 <= i < |q| - 1 ensures !AfterCycle(g, q[i]) { assert q[i] == p[i + 1]; }
      PassBoundsPath(g, latency, dist, topo, cur, q);
      KahnMissing(g, topo, p[0]);
    }
  }

  // ----- what the critical path is not -----

  /** The latency of the whole path, the last node included. */
  ghost function FullWeight(latency: map<NodeId, real>, p: seq<NodeId>): real
    requires |p| > 0
  {
    HeadWeight(latency, p) + (if p[|p| - 1] in latency then latency[p[|p| - 1]] else 0.0)
  }

  /** Counting end nodes too, the engine's path can fall short of a rival only by the
      difference of the two end nodes' own latencies. */
  lemma FullWeightGap(g: Graph, latency: map<NodeId, real>, path: seq<NodeId>, p: seq<NodeId>)
    requires WellFormed(g) && latency.Keys == Elements(g.nodes) && Acyclic(g)
    requires IsHeaviest(g, latency, path) && IsPath(g, p)
    ensures path[|path| - 1] in latency && p[|p| - 1] in latency
    ensures FullWeight(latency, p) - FullWeight(latency, path) <= latency[p[|p| - 1]] - latency[path[|path| - 1]]
  {
    AcyclicIff(g);
    PathNodes(g, p);
    PathNodes(g, path);
    assert HeadClear(g, p);
  }

  /** Such a shortfall does occur: with A (100) -> B (0) and C (500) alone, the engine settles
      on the path A, B although C alone takes longer. */
  lemma EndLatencyIgnored()
    ensures var a, b, c := NodeId("A"), NodeId("B"), NodeId("C");
            var g := Graph([a, b, c], [Edge(a, b)]);
            var latency := map[a := 100.0, b := 0.0, c := 500.0];
            && WellFormed(g) && IsPath(g, [a, b]) && IsPath(g, [c])
            && !IsHeaviest(g, latency, [c])
            && FullWeight(latency, [a, b]) < FullWeight(latency, [c])
  {
    var a, b, c := NodeId("A"), NodeId("B"), NodeId("C");
    assert a.name[0] == 'A' && b.name[0] == 'B' && c.name[0] == 'C';
    var g := Graph([a, b, c], [Edge(a, b)]);
    var latency := map[a := 100.0, b := 0.0, c := 500.0];
    assert IsPath(g, [a, b]) && [a, b][1..] == [b];
    assert HeadWeight(latency, [a, b]) == 100.0;
    if AfterCycle(g, a) {
      var w := AfterCycleParent(g, a);
      assert false;
    }
    assert HeadClear(g, [a, b]);
  }

  ghost predicate IsSink(g: Graph, v: NodeId) {
    v in g.nodes && forall u :: Edge(v, u) !in g.edges
  }

  ghost predicate OneSink(g: Graph) {
    forall u, v :: IsSink(g, u) && IsSink(g, v) ==> u == v
  }

  ghost predicate PositiveLatency(g: Graph, latency: map<NodeId, real>) {
    latency.Keys == Elements(g.nodes) && forall v :: v in latency ==> latency[v] > 0.0
  }

  ghost predicate NonNegativeLatency(g: Graph, latency: map<NodeId, real>) {
    latency.Keys == Elements(g.nodes) && forall v :: v in latency ==> latency[v] >= 0.0
  }

  /** Whatever the positive latencies, the reported path takes longest end to end. */
  ghost predicate ReportedIsLongest(g: Graph) {
    forall latency, path, p ::
      PositiveLatency(g, latency) && IsReported(g, latency, path) && IsPath(g, p) ==>
        FullWeight(latency, p) <= FullWeight(latency, path)
  }

  /** Leaving out the end node is harmless, for all positive latencies, exactly on graphs with
      at most one sink. */
  lemma EndLatencyHarmlessIff(g: Graph)
    requires WellFormed(g) && Acyclic(g)
    ensures ReportedIsLongest(g) <==> OneSink(g)
  {
    if OneSink(g) {
      forall latency, path, p | PositiveLatency(g, latency) && IsReported(g, latency, path) && IsPath(g, p)
        ensures FullWeight(latency, p) <= FullWeight(latency, path)
      {
        OneSinkHarmless(g, latency, path, p);
      }
    } else {
      var u, v :| IsSink(g, u) && IsSink(g, v) && u != v;
      var latency, path, p := TwoSinksHarm(g, u, v);
    }
  }

  lemma {:induction false} HeadWeightSnoc(latency: map<NodeId, real>, p: seq<NodeId>, v: NodeId)
    requires |p| > 0
    ensures HeadWeight(latency, p + [v]) == FullWeight(latency, p)
  {
    var q := p + [v];
    assert q[1..] == p[1..] + [v];
    if |p| == 1 {
      assert HeadWeight(latency, q[1..]) == 0.0;
    } else {
      HeadWeightSnoc(latency, p[1..], v);
      assert p[1..][|p[1..]| - 1] == p[|p| - 1];
    }
  }

  /** In an acyclic graph no path is longer than there are nodes. */
  lemma PathBounded(g: Graph, p: seq<NodeId>)
    requires WellFormed(g) && Acyclic(g) && IsPath(g, p)
    ensures |p| <= |g.nodes|
  {
    if |p| > |g.nodes| {
      PathNodes(g, p);
      DistinctCount(g.nodes);
      var i, j := Pigeonhole(p, Elements(g.nodes));
      SubPath(g, p, i, j + 1);
      assert IsCycle(g, p[i..j + 1]);
    }
  }

  /** Going on to a sink loses no weight. */
  lemma {:induction false} ToSink(g: Graph, latency: map<NodeId, real>, p: seq<NodeId>) returns (q: seq<NodeId>)
    requires WellFormed(g) && Acyclic(g) && NonNegativeLatency(g, latency) && IsPath(g, p)
    ensures IsPath(g, q) && IsSink(g, q[|q| - 1])
    ensures FullWeight(latency, p) <= FullWeight(latency, q) && HeadWeight(latency, p) <= HeadWeight(latency, q)
    decreases |g.nodes| - |p|
  {
    PathBounded(g, p);
    PathNodes(g, p);
    var last := p[|p| - 1];
    if IsSink(g, last) {
      q := p;
    } else {
      var u :| Edge(last, u) in g.edges;
      ExtendPath(g, p, u);
      PathBounded(g, p + [u]);
      HeadWeightSnoc(latency, p, u);
      q := ToSink(g, latency, p + [u]);
    }
  }

  lemma OneSinkHarmless(g: Graph, latency: map<NodeId, real>, path: seq<NodeId>, p: seq<NodeId>)
    requires WellFormed(g) && Acyclic(g) && OneSink(g)
    requires PositiveLatency(g, latency) && IsHeaviest(g, latency, path) && IsPath(g, p)
    ensures FullWeight(latency, p) <= FullWeight(latency, path)
  {
    PathNodes(g, path);
    var last := path[|path| - 1];
    if !IsSink(g, last) {
      var u :| Edge(last, u) in g.edges;
      ExtendPath(g, path, u);
      HeadWeightSnoc(latency, path, u);
      assert false;
    }
    var q := ToSink(g, latency, p);
  }

  lemma {:induction false} LongestPath(g: Graph, p: seq<NodeId>) returns (q: seq<NodeId>)
    requires WellFormed(g) && Acyclic(g) && IsPath(g, p)
    ensures IsPath(g, q) && forall r :: IsPath(g, r) ==> |r| <= |q|
    decreases |g.nodes| - |p|
  {
    PathBounded(g, p);
    if exists r :: IsPath(g, r) && |r| > |p| {
      var r :| IsPath(g, r) && |r| > |p|;
      PathBounded(g, r);
      q := LongestPath(g, r);
    } else {
      q := p;
    }
  }

  // ----- latencies that may be zero, as they are by default -----

  /** Whatever the latencies, zero or more, the reported path takes longest end to end. */
  ghost predicate ReportedIsLongestOrZero(g: Graph) {
    forall latency, path, p ::
      NonNegativeLatency(g, latency) && IsReported(g, latency, path) && IsPath(g, p) ==>
        FullWeight(latency, p) <= FullWeight(latency, path)
  }

  /** The first node of the graph is its only sink. */
  ghost predicate SinkFirst(g: Graph) {
    forall v :: IsSink(g, v) ==> |g.nodes| > 0 && v == g.nodes[0]
  }

  /** With latencies of zero, among equally heavy paths the first end wins: now leaving out the
      end node is harmless exactly if the only sink is also the first node that was added. */
  lemma ZeroLatencyHarmlessIff(g: Graph)
    requires WellFormed(g) && Acyclic(g)
    ensures ReportedIsLongestOrZero(g) <==> SinkFirst(g)
  {
    if SinkFirst(g) {
      forall latency, path, p | NonNegativeLatency(g, latency) && IsReported(g, latency, path) && IsPath(g, p)
        ensures FullWeight(latency, p) <= FullWeight(latency, path)
      {
        SinkFirstHarmless(g, latency, path, p);
      }
    } else {
      var v :| IsSink(g, v) && v != g.nodes[0];
      var latency, path, p := LaterSinkHarms(g, v);
    }
  }

  lemma SinkFirstHarmless(g: Graph, latency: map<NodeId, real>, path: seq<NodeId>, p: seq<NodeId>)
    requires WellFormed(g) && Acyclic(g) && SinkFirst(g)
    requires NonNegativeLatency(g, latency) && IsReported(g, latency, path) && IsPath(g, p)
    ensures FullWeight(latency, p) <= FullWeight(latency, path)
  {
    AcyclicIff(g);
    var onward := ToSink(g, latency, path);
    assert HeadClear(g, onward);
    var i :| EndsFirst(g, latency, path, i);
    assert i == 0;
    var q := ToSink(g, latency, p);
    assert HeadClear(g, q);
  }

  lemma LaterSinkHarms(g: Graph, v: NodeId) returns (latency: map<NodeId, real>, path: seq<NodeId>, p: seq<NodeId>)
    requires WellFormed(g) && IsSink(g, v) && v != g.nodes[0]
    ensures NonNegativeLatency(g, latency) && IsReported(g, latency, path) && IsPath(g, p)
    ensures FullWeight(latency, p) > FullWeight(latency, path)
  {
    latency := map u | u in Elements(g.nodes) :: if u == v then 1.0 else 0.0;
    path, p := [g.nodes[0]], [v];
    forall r | IsPath(g, r) ensures HeadWeight(latency, r) == 0.0 { OnlySinkWeighs(g, latency, v, r); }
    assert EndsFirst(g, latency, path, 0);
  }

  lemma {:induction false} OnlySinkWeighs(g: Graph, latency: map<NodeId, real>, sink: NodeId, p: seq<NodeId>)
    requires WellFormed(g) && IsSink(g, sink) && IsPath(g, p)
    requires forall u :: u in latency && u != sink ==> latency[u] == 0.0
    ensures HeadWeight(latency, p) == 0.0
    decreases |p|
  {
    if |p| > 1 {
      SubPath(g, p, 1, |p|);
      assert p[1..] == p[1..|p|];
      assert Edge(p[1 - 1], p[1]) in g.edges;
      OnlySinkWeighs(g, latency, sink, p[1..]);
    }
  }

  /** A cycle leaves its first node, and comes back to it. */
  lemma CycleEnds(g: Graph, c: seq<NodeId>)
    requires IsCycle(g, c)
    ensures Edge(c[0], c[1]) in g.edges && Edge(c[|c| - 2], c[0]) in g.edges
  {
    assert Edge(c[1 - 1], c[1]) in g.edges && Edge(c[(|c| - 1) - 1], c[|c| - 1]) in g.edges;
  }

  /** An instance with the default latency: with A (0) -> B (5), in that order, the one sink
      is not the first node, and A alone is reported. */
  lemma DefaultLatencyHarms()
    ensures var a, b := NodeId("A"), NodeId("B");
            var g, latency := Graph([a, b], [Edge(a, b)]), map[a := 0.0, b := 5.0];
            && WellFormed(g) && Acyclic(g) && OneSink(g) && !SinkFirst(g)
            && IsReported(g, latency, [a]) && IsPath(g, [a, b])
            && FullWeight(latency, [a, b]) > FullWeight(latency, [a])
  {
    var a, b := NodeId("A"), NodeId("B");
    assert a.name[0] == 'A' && b.name[0] == 'B';
    var g, latency := Graph([a, b], [Edge(a, b)]), map[a := 0.0, b := 5.0];
    assert IsPath(g, [a, b]) && [a, b][1..] == [b];
    assert IsSink(g, b) && Edge(a, b) in g.edges;
    forall c ensures !IsCycle(g, c) {
      if IsCycle(g, c) { CycleEnds(g, c); }
    }
    forall r | IsPath(g, r) ensures HeadWeight(latency, r) == 0.0 { OnlySinkWeighs(g, latency, b, r); }
    assert EndsFirst(g, latency, [a], 0);
  }

  // ----- two sinks -----

  /** Latency 1 everywhere but at one sink. */
  ghost function Flat(g: Graph, sink: NodeId, x: real): map<NodeId, real> {
    map v | v in Elements(g.nodes) :: if v == sink then x else 1.0
  }

  lemma {:induction false} FlatWeight(g: Graph, sink: NodeId, x: real, p: seq<NodeId>)
    requires WellFormed(g) && IsSink(g, sink) && IsPath(g, p)
    ensures HeadWeight(Flat(g, sink, x), p) == (|p| - 1) as real
    decreases |p|
  {
    PathNodes(g, p);
    if |p| > 1 {
      SubPath(g, p, 1, |p|);
      assert p[1..] == p[1..|p|];
      assert Edge(p[1 - 1], p[1]) in g.edges;
      FlatWeight(g, sink, x, p[1..]);
    }
  }

  /** A longest path, and among those one whose end comes first in the order. */
  lemma FirstLongest(g: Graph, start: NodeId) returns (path: seq<NodeId>, i: nat)
    requires WellFormed(g) && Acyclic(g) && start in g.nodes
    ensures IsPath(g, path) && (forall r :: IsPath(g, r) ==> |r| <= |path|)
    ensures i < |g.nodes| && path[|path| - 1] == g.nodes[i]
    ensures forall r :: IsPath(g, r) && r[|r| - 1] in g.nodes[..i] ==> |r| < |path|
  {
    path := LongestPath(g, [start]);
    PathNodes(g, path);
    i :| 0 <= i < |g.nodes| && g.nodes[i] == path[|path| - 1];
    path, i := EarlierEnd(g, path, i);
  }

  lemma {:induction false} EarlierEnd(g: Graph, p: seq<NodeId>, n: nat) returns (path: seq<NodeId>, i: nat)
    requires IsPath(g, p) && (forall r :: IsPath(g, r) ==> |r| <= |p|) && n < |g.nodes| && p[|p| - 1] == g.nodes[n]
    ensures IsPath(g, path) && |path| == |p| && i < |g.nodes| && path[|path| - 1] == g.nodes[i]
    ensures forall r :: IsPath(g, r) && r[|r| - 1] in g.nodes[..i] ==> |r| < |path|
    decreases n
  {
    if q :| IsPath(g, q) && |q| == |p| && q[|q| - 1] in g.nodes[..n] {
      var k :| 0 <= k < n && g.nodes[k] == q[|q| - 1];
      path, i := EarlierEnd(g, q, k);
    } else {
      path, i := p, n;
    }
  }

  /** The engine's weights do not see what a sink takes, so the end it reports does not change
      when some other sink becomes slow. */
  lemma TwoSinksHarm(g: Graph, u: NodeId, v: NodeId)
    returns (latency: map<NodeId, real>, path: seq<NodeId>, p: seq<NodeId>)
    requires WellFormed(g) && Acyclic(g) && IsSink(g, u) && IsSink(g, v) && u != v
    ensures PositiveLatency(g, latency) && IsReported(g, latency, path) && IsPath(g, p)
    ensures FullWeight(latency, p) > FullWeight(latency, path)
  {
    var i;
    path, i := FirstLongest(g, u);
    var other := if path[|path| - 1] == u then v else u;
    var x := |path| as real + 1.0;
    latency := Flat(g, other, x);
    FlatWeight(g, other, x, path);
    forall r | IsPath(g, r) ensures HeadWeight(latency, r) == (|r| - 1) as real { FlatWeight(g, other, x, r); }
    assert EndsFirst(g, latency, path, i);
    PathNodes(g, path);
    p := [other];
  }
}
