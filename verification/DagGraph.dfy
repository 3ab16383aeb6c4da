/** Directed graphs as the DAG engine stores them: node ids in insertion order and a
    list of edges in which the same edge may occur more than once. */
module DagGraph {
  import opened Common

  datatype NodeId = NodeId(name: string)
  datatype Edge = Edge(source: NodeId, target: NodeId)
  datatype Graph = Graph(nodes: seq<NodeId>, edges: seq<Edge>)

  ghost predicate WellFormed(g: Graph) {
    && Distinct(g.nodes)
    && forall e :: e in g.edges ==> e.source in g.nodes && e.target in g.nodes && e.source != e.target
  }

  // ----- adjacency lists and in-degrees, read off the edge list -----

  function Children(edges: seq<Edge>, n: NodeId): seq<NodeId> {
    if edges == [] then [] else
      var last := edges[|edges| - 1];
      Children(edges[..|edges| - 1], n) + (if last.source == n then [last.target] else [])
  }

  function Parents(edges: seq<Edge>, n: NodeId): seq<NodeId> {
    if edges == [] then [] else
      var last := edges[|edges| - 1];
      Parents(edges[..|edges| - 1], n) + (if last.target == n then [last.source] else [])
  }

  lemma {:induction false} ListsHave(edges: seq<Edge>, n: NodeId)
    ensures forall m :: m in Children(edges, n) <==> Edge(n, m) in edges
    ensures forall m :: m in Parents(edges, n) <==> Edge(m, n) in edges
  {
    if edges != [] {
      var rest := edges[..|edges| - 1];
      ListsHave(rest, n);
      assert edges == rest + [edges[|edges| - 1]];
    }
  }

  lemma ListsSnoc(edges: seq<Edge>, e: Edge, n: NodeId)
    ensures Children(edges + [e], n) == if e.source == n then Children(edges, n) + [e.target] else Children(edges, n)
    ensures Parents(edges + [e], n) == if e.target == n then Parents(edges, n) + [e.source] else Parents(edges, n)
  {
    assert (edges + [e])[..|edges|] == edges;
  }

  /** The number of edges into v whose source is not in `done`. */
  ghost function OpenInto(edges: seq<Edge>, v: NodeId, done: set<NodeId>): nat {
    if edges == [] then 0 else
      var last := edges[|edges| - 1];
      OpenInto(edges[..|edges| - 1], v, done) + (if last.target == v && last.source !in done then 1 else 0)
  }

  /** Finishing n closes as many edges into v as v occurs in n's adjacency list. */
  lemma {:induction false} OpenAfter(edges: seq<Edge>, v: NodeId, done: set<NodeId>, n: NodeId)
    requires n !in done
    ensures OpenInto(edges, v, done) == OpenInto(edges, v, done + {n}) + multiset(Children(edges, n))[v]
  {
    if edges != [] {
      OpenAfter(edges[..|edges| - 1], v, done, n);
    }
  }

  lemma {:induction false} NoneOpen(edges: seq<Edge>, v: NodeId, done: set<NodeId>)
    ensures OpenInto(edges, v, done) == 0 <==> forall u :: Edge(u, v) in edges ==> u in done
  {
    if edges != [] {
      var last := edges[|edges| - 1];
      assert edges == edges[..|edges| - 1] + [last];
      NoneOpen(edges[..|edges| - 1], v, done);
    }
  }

  lemma OpenSnoc(edges: seq<Edge>, e: Edge, v: NodeId, done: set<NodeId>)
    ensures OpenInto(edges + [e], v, done)
         == OpenInto(edges, v, done) + (if e.target == v && e.source !in done then 1 else 0)
  {
    assert (edges + [e])[..|edges|] == edges;
  }

  // ----- paths and cycles -----

  ghost predicate IsPath(g: Graph, p: seq<NodeId>) {
    && |p| > 0
    && p[0] in g.nodes
    && forall i :: 1 <= i < |p| ==> Edge(p[i - 1], p[i]) in g.edges
  }

  ghost predicate PathFromTo(g: Graph, p: seq<NodeId>, u: NodeId, v: NodeId) {
    IsPath(g, p) && p[0] == u && p[|p| - 1] == v
  }

  ghost predicate IsCycle(g: Graph, c: seq<NodeId>) {
    IsPath(g, c) && |c| >= 2 && c[0] == c[|c| - 1]
  }

  ghost predicate Acyclic(g: Graph) {
    forall c :: !IsCycle(g, c)
  }

  /** u is a proper ancestor of v: a path with at least one edge leads from u to v. */
  ghost predicate Reaches(g: Graph, u: NodeId, v: NodeId) {
    exists p :: PathFromTo(g, p, u, v) && |p| >= 2
  }

  /** v lies on a cycle or is reachable from one. */
  ghost predicate AfterCycle(g: Graph, v: NodeId) {
    exists u, c, p :: IsCycle(g, c) && c[0] == u && PathFromTo(g, p, u, v)
  }

  lemma PathNodes(g: Graph, p: seq<NodeId>)
    requires WellFormed(g) && IsPath(g, p)
    ensures forall i :: 0 <= i < |p| ==> p[i] in g.nodes
  {
    forall i | 0 <= i < |p| ensures p[i] in g.nodes {
      if i > 0 { assert Edge(p[i - 1], p[i]) in g.edges; }
    }
  }

  lemma SubPath(g: Graph, p: seq<NodeId>, i: nat, j: nat)
    requires WellFormed(g) && IsPath(g, p) && i < j <= |p|
    ensures IsPath(g, p[i..j])
  {
    PathNodes(g, p);
    var q := p[i..j];
    forall k | 1 <= k < |q| ensures Edge(q[k - 1], q[k]) in g.edges {
      assert q[k - 1] == p[(i + k) - 1] && q[k] == p[i + k];
    }
  }

  /** Two paths that share an end point join up. */
  lemma JoinPaths(g: Graph, p: seq<NodeId>, q: seq<NodeId>)
    requires IsPath(g, p) && IsPath(g, q) && p[|p| - 1] == q[0]
    ensures PathFromTo(g, p + q[1..], p[0], q[|q| - 1])
  {
    var r := p + q[1..];
    forall k | 1 <= k < |r| ensures Edge(r[k - 1], r[k]) in g.edges {
      if k >= |p| {
        var i := k - |p| + 1;
        assert Edge(q[i - 1], q[i]) in g.edges;
        assert r[k] == q[i] && r[k - 1] == q[i - 1];
      } else {
        assert Edge(p[k - 1], p[k]) in g.edges;
      }
    }
  }

  lemma ExtendPath(g: Graph, p: seq<NodeId>, v: NodeId)
    requires WellFormed(g) && IsPath(g, p) && Edge(p[|p| - 1], v) in g.edges
    ensures PathFromTo(g, p + [v], p[0], v)
  {
    var q := [p[|p| - 1], v];
    assert IsPath(g, q);
    JoinPaths(g, p, q);
    assert p + q[1..] == p + [v];
  }

  lemma PrependPath(g: Graph, u: NodeId, p: seq<NodeId>)
    requires WellFormed(g) && IsPath(g, p) && Edge(u, p[0]) in g.edges
    ensures IsPath(g, [u] + p)
  {
    assert IsPath(g, [u, p[0]]);
    JoinPaths(g, [u, p[0]], p);
    assert [u, p[0]] + p[1..] == [u] + p;
  }

  lemma ReachesEdge(g: Graph, u: NodeId, v: NodeId)
    requires WellFormed(g) && Edge(u, v) in g.edges
    ensures Reaches(g, u, v)
  {
    assert PathFromTo(g, [u, v], u, v);
  }

  lemma ReachesTransitive(g: Graph, u: NodeId, v: NodeId, w: NodeId)
    requires Reaches(g, u, v) && Reaches(g, v, w)
    ensures Reaches(g, u, w)
  {
    var p :| PathFromTo(g, p, u, v) && |p| >= 2;
    var q :| PathFromTo(g, q, v, w) && |q| >= 2;
    JoinPaths(g, p, q);
  }

  /** The last step of a path: a proper ancestor of v is a parent of v or reaches one. */
  lemma LastEdge(g: Graph, u: NodeId, v: NodeId) returns (w: NodeId)
    requires WellFormed(g) && Reaches(g, u, v)
    ensures Edge(w, v) in g.edges && w in g.nodes && (w == u || Reaches(g, u, w))
  {
    var p :| PathFromTo(g, p, u, v) && |p| >= 2;
    w := p[|p| - 2];
    assert Edge(p[(|p| - 1) - 1], p[|p| - 1]) in g.edges;
    SubPath(g, p, 0, |p| - 1);
    assert PathFromTo(g, p[0..|p| - 1], u, w);
    if |p| == 2 { assert w == u; }
  }

  /** A node behind a cycle has a parent behind a cycle. */
  lemma AfterCycleParent(g: Graph, v: NodeId) returns (w: NodeId)
    requires WellFormed(g) && AfterCycle(g, v)
    ensures Edge(w, v) in g.edges && AfterCycle(g, w) && v in g.nodes
  {
    var u, c, p :| IsCycle(g, c) && c[0] == u && PathFromTo(g, p, u, v);
    JoinPaths(g, c, p);
    var q := c + p[1..];
    PathNodes(g, q);
    w := q[|q| - 2];
    assert Edge(q[(|q| - 1) - 1], q[|q| - 1]) in g.edges;
    SubPath(g, q, 0, |q| - 1);
    assert PathFromTo(g, q[0..|q| - 1], u, w);
  }

  lemma AcyclicIff(g: Graph)
    ensures Acyclic(g) <==> forall v :: !AfterCycle(g, v)
  {
    if !Acyclic(g) {
      var c :| IsCycle(g, c);
      assert PathFromTo(g, [c[0]], c[0], c[0]);
      assert AfterCycle(g, c[0]);
    }
  }

  // ----- what Kahn's algorithm computes -----

  /** Every node of `order` comes after all its parents. */
  ghost predicate ParentsFirst(g: Graph, order: seq<NodeId>) {
    forall i, u :: 0 <= i < |order| && Edge(u, order[i]) in g.edges ==> u in order[..i]
  }

  ghost predicate HasUnlistedParent(g: Graph, listed: set<NodeId>, v: NodeId) {
    exists u :: Edge(u, v) in g.edges && u !in listed
  }

  /** Only nodes with an unlisted parent are left out. */
  ghost predicate ClosedUnderParents(g: Graph, listed: set<NodeId>) {
    forall v {:trigger HasUnlistedParent(g, listed, v)} ::
      v in g.nodes && v !in listed ==> HasUnlistedParent(g, listed, v)
  }

  ghost predicate IsKahnOrder(g: Graph, order: seq<NodeId>) {
    && Distinct(order)
    && (forall v :: v in order ==> v in g.nodes)
    && ParentsFirst(g, order)
    && ClosedUnderParents(g, Elements(order))
  }

  /** In such an order nothing is listed twice, and every edge leads forward. */
  lemma EdgeLeadsForward(g: Graph, order: seq<NodeId>, i: nat, j: nat)
    requires IsKahnOrder(g, order) && i < |order| && j < |order|
    ensures order[i] == order[j] ==> i == j
    ensures Edge(order[i], order[j]) in g.edges ==> i < j
  {
    if Edge(order[i], order[j]) in g.edges {
      var k :| 0 <= k < j && order[k] == order[i];
    }
  }

  /** Along a path that ends in `order`, the whole path lies in `order`, earlier and earlier. */
  lemma {:induction false} PathGoesBack(g: Graph, order: seq<NodeId>, p: seq<NodeId>, i: nat)
    requires ParentsFirst(g, order) && IsPath(g, p)
    requires i < |order| && order[i] == p[|p| - 1]
    ensures |p| >= 2 ==> p[0] in order[..i]
    decreases |p|
  {
    if |p| >= 2 {
      var q := p[..|p| - 1];
      assert Edge(p[(|p| - 1) - 1], p[|p| - 1]) in g.edges;
      assert q[|q| - 1] in order[..i];
      var j :| 0 <= j < i && order[j] == q[|q| - 1];
      assert IsPath(g, q);
      PathGoesBack(g, order, q, j);
    }
  }

  /** No node behind a cycle can be listed: its cycle would have to precede itself. */
  lemma BehindCycleUnlisted(g: Graph, order: seq<NodeId>, v: NodeId)
    requires WellFormed(g) && Distinct(order) && ParentsFirst(g, order) && AfterCycle(g, v)
    ensures v !in order
  {
    if v in order {
      var u, c, p :| IsCycle(g, c) && c[0] == u && PathFromTo(g, p, u, v);
      var i :| 0 <= i < |order| && order[i] == v;
      PathGoesBack(g, order, p, i);
      if |p| == 1 { assert u == v; }
      var k :| 0 <= k < |order| && order[k] == u;
      PathGoesBack(g, order, c, k);
      assert false;
    }
  }

  /** From an unlisted node one can walk back through unlisted nodes for as long as one likes. */
  lemma {:induction false} WalkBack(g: Graph, listed: set<NodeId>, v: NodeId, n: nat) returns (p: seq<NodeId>)
    requires WellFormed(g) && ClosedUnderParents(g, listed)
    requires v in g.nodes && v !in listed
    ensures IsPath(g, p) && |p| == n + 1 && p[n] == v
    decreases n
  {
    if n == 0 {
      p := [v];
    } else {
      assert HasUnlistedParent(g, listed, v);
      var u :| Edge(u, v) in g.edges && u !in listed;
      var q := WalkBack(g, listed, u, n - 1);
      ExtendPath(g, q, v);
      p := q + [v];
    }
  }

  lemma UnlistedBehindCycle(g: Graph, listed: set<NodeId>, v: NodeId)
    requires WellFormed(g) && ClosedUnderParents(g, listed)
    requires v in g.nodes && v !in listed
    ensures AfterCycle(g, v)
  {
    var n := |Elements(g.nodes)|;
    var p := WalkBack(g, listed, v, n);
    PathNodes(g, p);
    var i, j := Pigeonhole(p, Elements(g.nodes));
    var c, q := p[i..j + 1], p[i..|p|];
    SubPath(g, p, i, j + 1);
    SubPath(g, p, i, |p|);
    assert IsCycle(g, c) && PathFromTo(g, q, c[0], v);
  }

  /** The nodes a Kahn order leaves out are exactly those on, or reachable from, a cycle. */
  lemma KahnMissing(g: Graph, order: seq<NodeId>, v: NodeId)
    requires WellFormed(g) && IsKahnOrder(g, order)
    ensures v in g.nodes && v !in order <==> AfterCycle(g, v)
  {
    if AfterCycle(g, v) {
      BehindCycleUnlisted(g, order, v);
      var w := AfterCycleParent(g, v);
    } else if v in g.nodes && v !in order {
      UnlistedBehindCycle(g, Elements(order), v);
    }
  }

  /** The length test in `validate` decides acyclicity. */
  lemma KahnDecidesAcyclic(g: Graph, order: seq<NodeId>)
    requires WellFormed(g) && IsKahnOrder(g, order)
    ensures |order| == |g.nodes| <==> Acyclic(g)
  {
    AcyclicIff(g);
    DistinctCount(order);
    DistinctCount(g.nodes);
    SubsetCount(Elements(order), Elements(g.nodes));
    forall v ensures v in g.nodes && v !in order <==> AfterCycle(g, v) {
      KahnMissing(g, order, v);
    }
    if |order| == |g.nodes| {
      assert forall v :: v in g.nodes ==> v in Elements(order);
    } else if Acyclic(g) {
      assert forall v :: v in Elements(g.nodes) ==> v in order;
      SubsetCount(Elements(g.nodes), Elements(order));
      assert false;
    }
  }

  /** Every graph has a Kahn order. */
  lemma {:induction false} KahnOrderExists(g: Graph, begun: seq<NodeId>) returns (order: seq<NodeId>)
    requires WellFormed(g) && Distinct(begun) && ParentsFirst(g, begun)
    requires forall v :: v in begun ==> v in g.nodes
    ensures IsKahnOrder(g, order)
    decreases |g.nodes| - |begun|
  {
    var done := Elements(begun);
    if v :| v in g.nodes && v !in begun && !HasUnlistedParent(g, done, v) {
      var next := begun + [v];
      forall i, u | 0 <= i < |next| && Edge(u, next[i]) in g.edges ensures u in next[..i] {
        if i < |begun| {
          assert next[..i] == begun[..i];
        } else {
          assert next[..i] == begun;
          assert u in done;
        }
      }
      DistinctCount(next);
      DistinctCount(g.nodes);
      SubsetCount(Elements(next), Elements(g.nodes));
      order := KahnOrderExists(g, next);
    } else {
      order := begun;
    }
  }
}
