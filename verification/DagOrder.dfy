/** Which of its topological orders and which of its heaviest paths the engine reports: the rules
    that decide, and that they leave exactly one of each. */
module DagOrder {
  import opened Common
  import opened DagGraph
  import opened DagTheory

  // ----- first in, first out -----

  ghost predicate ParentsIn(g: Graph, listed: seq<NodeId>, v: NodeId) {
    forall u :: Edge(u, v) in g.edges ==> u in listed
  }

  /** The first m nodes of the list are the fewest that include all parents of v. */
  ghost predicate ReadyAt(g: Graph, all: seq<NodeId>, m: nat, v: NodeId) {
    m <= |all| && ParentsIn(g, all[..m], v) && (m > 0 ==> !ParentsIn(g, all[..m - 1], v))
  }

  /** x occurs for the last time before some occurrence of y. */
  ghost predicate LastBefore(s: seq<NodeId>, x: NodeId, y: NodeId) {
    exists p :: 0 <= p < |s| && s[p] == y && x !in s[p..]
  }

  ghost predicate AddedBefore(g: Graph, x: NodeId, y: NodeId) {
    exists a, b :: 0 <= a < b < |g.nodes| && g.nodes[a] == x && g.nodes[b] == y
  }

  /** x, ready at m, comes before y, ready at n: it was ready sooner; or both were from the start,
      and it was added to the graph sooner; or the same node made both of them ready, and its edges
      to x end before those to y. */
  ghost predicate Sooner(g: Graph, all: seq<NodeId>, m: nat, x: NodeId, n: nat, y: NodeId)
    requires m <= |all|
  {
    m < n || (m == n && if m == 0 then AddedBefore(g, x, y) else LastBefore(Children(g.edges, all[m - 1]), x, y))
  }

  ghost predicate InTurn(g: Graph, all: seq<NodeId>, x: NodeId, y: NodeId) {
    exists m: nat, n: nat :: ReadyAt(g, all, m, x) && ReadyAt(g, all, n, y) && Sooner(g, all, m, x, n, y)
  }

  ghost predicate Queued(g: Graph, all: seq<NodeId>) {
    forall i, j :: 0 <= i < j < |all| ==> InTurn(g, all, all[i], all[j])
  }

  /** A topological order of the nodes that are not behind a cycle, first in, first out. */
  ghost predicate IsQueueOrder(g: Graph, topo: seq<NodeId>) {
    IsKahnOrder(g, topo) && Queued(g, topo)
  }

  lemma ReadyStays(g: Graph, all: seq<NodeId>, more: seq<NodeId>, m: nat, v: NodeId)
    requires ReadyAt(g, all, m, v)
    ensures ReadyAt(g, all + more, m, v)
  {
    assert (all + more)[..m] == all[..m];
    if m > 0 { assert (all + more)[..m - 1] == all[..m - 1]; }
  }

  lemma InTurnStays(g: Graph, all: seq<NodeId>, more: seq<NodeId>, x: NodeId, y: NodeId)
    requires InTurn(g, all, x, y)
    ensures InTurn(g, all + more, x, y)
  {
    var m: nat, n: nat :| ReadyAt(g, all, m, x) && ReadyAt(g, all, n, y) && Sooner(g, all, m, x, n, y);
    ReadyStays(g, all, more, m, x);
    ReadyStays(g, all, more, n, y);
    if m > 0 { assert (all + more)[m - 1] == all[m - 1]; }
    assert Sooner(g, all + more, m, x, n, y);
  }

  /** One more node in its turn keeps the list in order. */
  lemma QueuedSnoc(g: Graph, all: seq<NodeId>, v: NodeId)
    requires Queued(g, all) && forall x :: x in all ==> InTurn(g, all + [v], x, v)
    ensures Queued(g, all + [v])
  {
    var next := all + [v];
    forall i, j | 0 <= i < j < |next| ensures InTurn(g, next, next[i], next[j]) {
      if j < |all| {
        assert InTurn(g, all, all[i], all[j]);
        InTurnStays(g, all, [v], all[i], all[j]);
      } else {
        assert all[i] in all;
      }
    }
  }

  lemma ParentsInMore(g: Graph, all: seq<NodeId>, m: nat, n: nat, v: NodeId)
    requires m <= n <= |all| && ParentsIn(g, all[..m], v)
    ensures ParentsIn(g, all[..n], v)
  {
    forall u | Edge(u, v) in g.edges ensures u in all[..n] {
      assert u in all[..m];
      assert all[..m] == all[..n][..m];
    }
  }

  /** Sooner or later the parents are in. */
  lemma {:induction false} ReadySometime(g: Graph, all: seq<NodeId>, n: nat, v: NodeId) returns (m: nat)
    requires n <= |all| && ParentsIn(g, all[..n], v)
    ensures m <= n && ReadyAt(g, all, m, v)
    decreases n
  {
    if n > 0 && ParentsIn(g, all[..n - 1], v) {
      m := ReadySometime(g, all, n - 1, v);
    } else {
      m := n;
    }
  }

  // ----- there is only one such order -----

  lemma ReadyNoLater(g: Graph, all: seq<NodeId>, m: nat, n: nat, v: NodeId)
    requires ReadyAt(g, all, m, v) && n <= |all| && ParentsIn(g, all[..n], v)
    ensures m <= n
  {
  }

  /** The moment is the same in two lists that begin alike. */
  lemma OneMoment(g: Graph, p: seq<NodeId>, q: seq<NodeId>, same: nat, m: nat, n: nat, v: NodeId)
    requires same <= |p| && same <= |q| && p[..same] == q[..same] && ParentsIn(g, p[..same], v)
    requires ReadyAt(g, p, m, v) && ReadyAt(g, q, n, v)
    ensures m == n <= same
  {
    ReadyNoLater(g, p, m, same, v);
    ReadyNoLater(g, q, n, same, v);
    assert p[..m] == p[..same][..m] == q[..m] && q[..n] == q[..same][..n] == p[..n];
    ReadyNoLater(g, p, m, n, v);
    ReadyNoLater(g, q, n, m, v);
  }

  lemma NotBothOrders(g: Graph, p: seq<NodeId>, q: seq<NodeId>, same: nat, x: NodeId, y: NodeId)
    requires Distinct(g.nodes) && same <= |p| && same <= |q| && p[..same] == q[..same]
    requires ParentsIn(g, p[..same], x) && ParentsIn(g, p[..same], y)
    requires InTurn(g, p, x, y)
    ensures !InTurn(g, q, y, x)
  {
    var m: nat, n: nat :| ReadyAt(g, p, m, x) && ReadyAt(g, p, n, y) && Sooner(g, p, m, x, n, y);
    forall n': nat, m': nat | ReadyAt(g, q, n', y) && ReadyAt(g, q, m', x) ensures !Sooner(g, q, n', y, m', x) {
      OneMoment(g, p, q, same, m, m', x);
      OneMoment(g, p, q, same, n, n', y);
      if m == n && m > 0 {
        assert p[m - 1] == p[..same][m - 1] == q[..same][m - 1] == q[m - 1];
        NotBothLast(Children(g.edges, p[m - 1]), x, y);
      }
    }
  }

  lemma NotBothLast(s: seq<NodeId>, x: NodeId, y: NodeId)
    requires LastBefore(s, x, y)
    ensures !LastBefore(s, y, x)
  {
    var p :| 0 <= p < |s| && s[p] == y && x !in s[p..];
    forall q | p <= q < |s| ensures s[q] != x {
      assert s[p..][q - p] == s[q];
    }
    forall q | 0 <= q < p ensures y in s[q..] {
      assert s[q..][p - q] == y;
    }
  }

  lemma SameListed(g: Graph, p: seq<NodeId>, q: seq<NodeId>)
    requires WellFormed(g) && IsKahnOrder(g, p) && IsKahnOrder(g, q)
    ensures Elements(p) == Elements(q) && |p| == |q|
  {
    forall v ensures v in p <==> v in q {
      KahnMissing(g, p, v);
      KahnMissing(g, q, v);
    }
    DistinctCount(p);
    DistinctCount(q);
  }

  lemma {:induction false} SamePrefix(g: Graph, p: seq<NodeId>, q: seq<NodeId>, n: nat)
    requires WellFormed(g) && IsQueueOrder(g, p) && IsQueueOrder(g, q) && Elements(p) == Elements(q)
    requires n <= |p| && n <= |q|
    ensures p[..n] == q[..n]
    decreases n
  {
    if n > 0 {
      SamePrefix(g, p, q, n - 1);
      NextSame(g, p, q, n - 1);
      SameSnoc(p, q, n - 1);
    }
  }

  lemma NextSame(g: Graph, p: seq<NodeId>, q: seq<NodeId>, n: nat)
    requires WellFormed(g) && IsQueueOrder(g, p) && IsQueueOrder(g, q) && Elements(p) == Elements(q)
    requires n < |p| && n < |q| && p[..n] == q[..n]
    ensures p[n] == q[n]
  {
    if p[n] != q[n] {
      NextInTurn(g, p, q, n);
      NextInTurn(g, q, p, n);
      NotBothOrders(g, p, q, n, p[n], q[n]);
    }
  }

  lemma NextInTurn(g: Graph, p: seq<NodeId>, q: seq<NodeId>, n: nat)
    requires IsQueueOrder(g, p) && Distinct(q) && Elements(p) == Elements(q)
    requires n < |p| && n < |q| && p[..n] == q[..n] && p[n] != q[n]
    ensures ParentsIn(g, p[..n], p[n]) && InTurn(g, p, p[n], q[n])
  {
    LaterIn(p, q, n);
    var j :| n < j < |p| && p[j] == q[n];
    assert InTurn(g, p, p[n], p[j]);
  }

  lemma LaterIn(p: seq<NodeId>, q: seq<NodeId>, n: nat)
    requires Elements(p) == Elements(q) && Distinct(q) && n < |p| && n < |q| && p[..n] == q[..n] && p[n] != q[n]
    ensures exists j :: n < j < |p| && p[j] == q[n]
  {
    assert q[n] in Elements(p);
    forall j | 0 <= j < n ensures p[j] != q[n] {
      assert p[j] == p[..n][j] == q[..n][j] == q[j];
    }
  }

  /** There is exactly one first-in-first-out order. */
  lemma OneQueueOrder(g: Graph, p: seq<NodeId>, q: seq<NodeId>)
    requires WellFormed(g) && IsQueueOrder(g, p) && IsQueueOrder(g, q)
    ensures p == q
  {
    SameListed(g, p, q);
    SamePrefix(g, p, q, |p|);
    assert p[..|p|] == p && q[..|p|] == q;
  }

  // ----- the queue of Kahn's algorithm -----

  /** The nodes without parents are queued in the order in which they were added. */
  lemma RootInTurn(g: Graph, all: seq<NodeId>, x: NodeId, y: NodeId)
    requires AddedBefore(g, x, y) && ParentsIn(g, [], x) && ParentsIn(g, [], y)
    ensures InTurn(g, all, x, y)
  {
    assert all[..0] == [];
    assert ReadyAt(g, all, 0, x) && ReadyAt(g, all, 0, y);
    assert Sooner(g, all, 0, x, 0, y);
  }

  /** While the k-th child of the node listed last is visited and becomes ready: what is listed or
      queued was ready before, or has become so by that node's earlier children. */
  lemma ChildInTurn(g: Graph, all: seq<NodeId>, t: nat, k: nat, x: NodeId)
    requires t < |all| && Distinct(all) && k < |Children(g.edges, all[t])|
    requires ParentsIn(g, all[..t + 1], Children(g.edges, all[t])[k]) && ParentsIn(g, all[..t + 1], x)
    requires ParentsIn(g, all[..t], x) || x !in Children(g.edges, all[t])[k..]
    ensures InTurn(g, all, x, Children(g.edges, all[t])[k])
  {
    var ch := Children(g.edges, all[t]);
    var y := ch[k];
    ListsHave(g.edges, all[t]);
    assert Edge(all[t], y) in g.edges && all[t] !in all[..t];
    assert !ParentsIn(g, all[..t], y) && ReadyAt(g, all, t + 1, y);
    if ParentsIn(g, all[..t], x) {
      var m := ReadySometime(g, all, t, x);
      assert Sooner(g, all, m, x, t + 1, y);
    } else {
      assert ReadyAt(g, all, t + 1, x) && LastBefore(ch, x, y);
      assert Sooner(g, all, t + 1, x, t + 1, y);
    }
  }

  // ----- and only one grouping -----

  lemma {:induction false} SameGroups(g: Graph, p: seq<set<NodeId>>, q: seq<set<NodeId>>, n: nat)
    requires AreGroups(g, p) && AreGroups(g, q) && n <= |p|
    ensures n <= |q| && p[..n] == q[..n]
    decreases n
  {
    if n > 0 {
      SameGroups(g, p, q, n - 1);
      NextGroup(g, p, q, n - 1);
      SameSnoc(p, q, n - 1);
    }
  }

  lemma SameSnoc<T>(p: seq<T>, q: seq<T>, n: nat)
    requires n < |p| && n < |q| && p[..n] == q[..n] && p[n] == q[n]
    ensures p[..n + 1] == q[..n + 1]
  {
    assert p[..n + 1] == p[..n] + [p[n]] && q[..n + 1] == q[..n] + [q[n]];
  }

  lemma NextGroup(g: Graph, p: seq<set<NodeId>>, q: seq<set<NodeId>>, n: nat)
    requires AreGroups(g, p) && AreGroups(g, q) && n < |p| && n <= |q| && p[..n] == q[..n]
    ensures n < |q| && p[n] == q[n]
  {
    GroupAt(g, p, n);
    GroupAt(g, q, n);
  }

  lemma GroupAt(g: Graph, groups: seq<set<NodeId>>, n: nat)
    requires AreGroups(g, groups) && n <= |groups|
    ensures ReadyAfter(g, Upto(groups[..n])) == if n < |groups| then groups[n] else {}
    ensures n < |groups| ==> groups[n] != {}
  {
    assert groups[..|groups|] == groups;
  }

  /** The groups are determined by the graph. */
  lemma OneGrouping(g: Graph, p: seq<set<NodeId>>, q: seq<set<NodeId>>)
    requires AreGroups(g, p) && AreGroups(g, q)
    ensures p == q
  {
    SameGroups(g, p, q, |p|);
    SameGroups(g, q, p, |q|);
    assert p[..|p|] == p && q[..|q|] == q;
  }

  // ----- the first of the heaviest paths -----

  ghost predicate Ahead(topo: seq<NodeId>, u: NodeId, w: NodeId) {
    exists i, j :: 0 <= i < j < |topo| && topo[i] == u && topo[j] == w
  }

  /** Up to node k the path has a positive weight, and more than any path that arrives there from a
      parent listed before the path's own. */
  ghost predicate TakenFirst(g: Graph, latency: map<NodeId, real>, topo: seq<NodeId>, path: seq<NodeId>, k: nat)
    requires 0 < k < |path|
  {
    && HeadWeight(latency, path[..k + 1]) > 0.0
    && forall q :: Rival(g, topo, path, k, q) ==> HeadWeight(latency, q) < HeadWeight(latency, path[..k + 1])
  }

  ghost predicate Rival(g: Graph, topo: seq<NodeId>, path: seq<NodeId>, k: nat, q: seq<NodeId>)
    requires 0 < k < |path|
  {
    IsPath(g, q) && HeadClear(g, q) && |q| >= 2 && q[|q| - 1] == path[k] && Ahead(topo, q[|q| - 2], path[k - 1])
  }

  ghost predicate IsFirst(g: Graph, latency: map<NodeId, real>, topo: seq<NodeId>, path: seq<NodeId>) {
    IsPath(g, path) && HeadClear(g, path) && forall k :: 0 < k < |path| ==> TakenFirst(g, latency, topo, path, k)
  }

  lemma {:induction false} HeadWeightSnoc(latency: map<NodeId, real>, p: seq<NodeId>)
    requires |p| >= 2
    ensures HeadWeight(latency, p)
         == HeadWeight(latency, p[..|p| - 1]) + if p[|p| - 2] in latency then latency[p[|p| - 2]] else 0.0
  {
    if |p| > 2 {
      HeadWeightSnoc(latency, p[1..]);
      assert p[1..][..|p| - 2] == p[..|p| - 1][1..];
    }
  }

  lemma FirstPrefix(g: Graph, latency: map<NodeId, real>, topo: seq<NodeId>, path: seq<NodeId>)
    requires IsFirst(g, latency, topo, path) && |path| >= 2
    ensures IsFirst(g, latency, topo, path[..|path| - 1])
  {
    var p := path[..|path| - 1];
    forall k | 0 < k < |p| ensures TakenFirst(g, latency, topo, p, k) {
      assert TakenFirst(g, latency, topo, path, k);
      assert p[..k + 1] == path[..k + 1];
      forall q | Rival(g, topo, p, k, q) ensures HeadWeight(latency, q) < HeadWeight(latency, p[..k + 1]) {
        assert Rival(g, topo, path, k, q);
      }
    }
  }

  lemma AheadOrNot(topo: seq<NodeId>, u: NodeId, w: NodeId)
    requires u in topo && w in topo && u != w
    ensures Ahead(topo, u, w) || Ahead(topo, w, u)
  {
    var i :| 0 <= i < |topo| && topo[i] == u;
    var j :| 0 <= j < |topo| && topo[j] == w;
  }

  lemma NotAhead(g: Graph, latency: map<NodeId, real>, topo: seq<NodeId>, p: seq<NodeId>, q: seq<NodeId>)
    requires IsFirst(g, latency, topo, p) && IsFirst(g, latency, topo, q)
    requires |p| >= 2 && |q| >= 2 && p[|p| - 1] == q[|q| - 1] && HeadWeight(latency, p) == HeadWeight(latency, q)
    ensures !Ahead(topo, q[|q| - 2], p[|p| - 2])
  {
    assert TakenFirst(g, latency, topo, p, |p| - 1);
    assert p[..|p| - 1 + 1] == p;
    assert Ahead(topo, q[|q| - 2], p[|p| - 2]) ==> Rival(g, topo, p, |p| - 1, q);
  }

  lemma BothLong(g: Graph, latency: map<NodeId, real>, topo: seq<NodeId>, p: seq<NodeId>, q: seq<NodeId>)
    requires IsFirst(g, latency, topo, p) && IsFirst(g, latency, topo, q)
    requires HeadWeight(latency, p) == HeadWeight(latency, q)
    ensures |p| == 1 <==> |q| == 1
  {
    if |p| > 1 {
      assert TakenFirst(g, latency, topo, p, |p| - 1);
      assert p[..|p| - 1 + 1] == p;
    }
    if |q| > 1 {
      assert TakenFirst(g, latency, topo, q, |q| - 1);
      assert q[..|q| - 1 + 1] == q;
    }
  }

  lemma SameParent(g: Graph, latency: map<NodeId, real>, topo: seq<NodeId>, p: seq<NodeId>, q: seq<NodeId>)
    requires WellFormed(g) && IsKahnOrder(g, topo)
    requires IsFirst(g, latency, topo, p) && IsFirst(g, latency, topo, q)
    requires |p| >= 2 && |q| >= 2 && p[|p| - 1] == q[|q| - 1] && HeadWeight(latency, p) == HeadWeight(latency, q)
    ensures p[|p| - 2] == q[|q| - 2]
  {
    var u, w := p[|p| - 2], q[|q| - 2];
    PathNodes(g, p);
    PathNodes(g, q);
    KahnMissing(g, topo, u);
    KahnMissing(g, topo, w);
    NotAhead(g, latency, topo, p, q);
    NotAhead(g, latency, topo, q, p);
    if u != w { AheadOrNot(topo, u, w); }
  }

  /** Only one such path ends where it does and weighs what it does. */
  lemma {:induction false} OneFirst(g: Graph, latency: map<NodeId, real>, topo: seq<NodeId>, p: seq<NodeId>,
                                    q: seq<NodeId>)
    requires WellFormed(g) && IsKahnOrder(g, topo)
    requires IsFirst(g, latency, topo, p) && IsFirst(g, latency, topo, q)
    requires p[|p| - 1] == q[|q| - 1] && HeadWeight(latency, p) == HeadWeight(latency, q)
    ensures p == q
    decreases |p|
  {
    BothLong(g, latency, topo, p, q);
    if |p| >= 2 {
      SameParent(g, latency, topo, p, q);
      HeadWeightSnoc(latency, p);
      HeadWeightSnoc(latency, q);
      FirstPrefix(g, latency, topo, p);
      FirstPrefix(g, latency, topo, q);
      OneFirst(g, latency, topo, p[..|p| - 1], q[..|q| - 1]);
      assert p == p[..|p| - 1] + [p[|p| - 1]] && q == q[..|q| - 1] + [q[|q| - 1]];
    }
  }

  /** There is exactly one path to report, on every graph. */
  lemma OneReported(g: Graph, latency: map<NodeId, real>, topo: seq<NodeId>, p: seq<NodeId>, q: seq<NodeId>)
    requires WellFormed(g) && IsKahnOrder(g, topo)
    requires IsReported(g, latency, p) && IsFirst(g, latency, topo, p)
    requires IsReported(g, latency, q) && IsFirst(g, latency, topo, q)
    ensures p == q
  {
    var i :| EndsFirst(g, latency, p, i);
    var j :| EndsFirst(g, latency, q, j);
    assert i == j;
    OneFirst(g, latency, topo, p, q);
  }

  // ----- the pass that finds it -----

  /** Everything listed before a node of `done` is in `done`. */
  ghost predicate ListedFirst(topo: seq<NodeId>, done: set<NodeId>) {
    forall u, w :: w in done && Ahead(topo, u, w) ==> u in done
  }

  /** The recorded parents are the first that lead to the distance, which is positive. */
  ghost predicate FirstParents(g: Graph, latency: map<NodeId, real>, dist: map<NodeId, real>,
                               prev: map<NodeId, NodeId>, topo: seq<NodeId>)
    requires WellFormed(g) && latency.Keys == dist.Keys == Elements(g.nodes)
  {
    && (forall v :: v in prev ==> v in dist && dist[v] > 0.0)
    && forall e :: e in g.edges && e.target in prev && Ahead(topo, e.source, prev[e.target]) ==>
         dist[e.source] + latency[e.source] < dist[e.target]
  }

  /** The nodes before place i are done with, and its own node is not among them. */
  lemma ListedUpto(topo: seq<NodeId>, i: nat)
    requires Distinct(topo) && i < |topo|
    ensures ListedFirst(topo, Elements(topo[..i]) + {topo[i]}) && !Ahead(topo, topo[i], topo[i])
  {
    forall u, w | w in Elements(topo[..i]) + {topo[i]} && Ahead(topo, u, w) ensures u in Elements(topo[..i]) {
      var a, b :| 0 <= a < b < |topo| && topo[a] == u && topo[b] == w;
      assert a < i && topo[..i][a] == u;
    }
  }

  /** A better parent: all that are listed before it have been tried, and lead to less. */
  lemma FirstVisit(g: Graph, latency: map<NodeId, real>, dist: map<NodeId, real>, prev: map<NodeId, NodeId>,
                   topo: seq<NodeId>, done: set<NodeId>, cur: NodeId, visited: set<NodeId>, child: NodeId, d: real)
    requires WellFormed(g) && latency.Keys == dist.Keys == Elements(g.nodes)
    requires FirstParents(g, latency, dist, prev, topo) && Relaxed(g, latency, dist, done, cur, visited)
    requires ListedFirst(topo, done + {cur}) && !Ahead(topo, cur, cur)
    requires cur in dist && child in dist && child !in done && child != cur
    requires forall v :: v in prev ==> prev[v] in done + {cur}
    requires d > dist[child] >= 0.0
    ensures FirstParents(g, latency, dist[child := d], prev[child := cur], topo)
  {
    var dist', prev' := dist[child := d], prev[child := cur];
    forall e | e in g.edges && e.target in prev' && Ahead(topo, e.source, prev'[e.target])
      ensures dist'[e.source] + latency[e.source] < dist'[e.target]
    {
      assert prev'[e.target] in done + {cur};
      assert e.source in done + {cur} && e.source != child;
      if e.target == child {
        assert e.source in done;
      } else {
        assert dist[e.source] + latency[e.source] < dist[e.target];
      }
    }
  }

  /** The path leads back along the recorded parents to a node without one. */
  ghost predicate Follows(prev: map<NodeId, NodeId>, path: seq<NodeId>) {
    forall k :: 0 < k < |path| ==> path[k] in prev && prev[path[k]] == path[k - 1]
  }

  lemma {:induction false} FollowedWeight(g: Graph, latency: map<NodeId, real>, dist: map<NodeId, real>,
                                          prev: map<NodeId, NodeId>, topo: seq<NodeId>, path: seq<NodeId>, k: nat)
    requires latency.Keys == dist.Keys == Elements(g.nodes) && Traced(g, latency, dist, prev, Elements(topo))
    requires Follows(prev, path) && k < |path| && path[0] in dist && path[0] !in prev
    ensures path[k] in dist && HeadWeight(latency, path[..k + 1]) == dist[path[k]]
  {
    if k > 0 {
      FollowedWeight(g, latency, dist, prev, topo, path, k - 1);
      HeadWeightSnoc(latency, path[..k + 1]);
      assert path[..k + 1][..k] == path[..k];
    }
  }

  /** A path back along the recorded parents is the first. */
  lemma FollowedIsFirst(g: Graph, latency: map<NodeId, real>, dist: map<NodeId, real>, prev: map<NodeId, NodeId>,
                        topo: seq<NodeId>, path: seq<NodeId>)
    requires WellFormed(g) && latency.Keys == dist.Keys == Elements(g.nodes) && IsKahnOrder(g, topo)
    requires forall cur :: Relaxed(g, latency, dist, Elements(topo), cur, {})
    requires Traced(g, latency, dist, prev, Elements(topo)) && FirstParents(g, latency, dist, prev, topo)
    requires IsPath(g, path) && Follows(prev, path) && path[0] !in prev
    ensures IsFirst(g, latency, topo, path)
  {
    forall i | 0 <= i < |path| - 1 ensures !AfterCycle(g, path[i]) {
      assert prev[path[i + 1]] == path[i];
      KahnMissing(g, topo, path[i]);
    }
    forall k | 0 < k < |path| ensures TakenFirst(g, latency, topo, path, k) {
      FollowedWeight(g, latency, dist, prev, topo, path, k);
      forall q | Rival(g, topo, path, k, q) ensures HeadWeight(latency, q) < HeadWeight(latency, path[..k + 1]) {
        RivalWeighsLess(g, latency, dist, prev, topo, path, k, q);
      }
    }
  }

  lemma RivalWeighsLess(g: Graph, latency: map<NodeId, real>, dist: map<NodeId, real>, prev: map<NodeId, NodeId>,
                        topo: seq<NodeId>, path: seq<NodeId>, k: nat, q: seq<NodeId>)
    requires WellFormed(g) && latency.Keys == dist.Keys == Elements(g.nodes) && IsKahnOrder(g, topo)
    requires forall cur :: Relaxed(g, latency, dist, Elements(topo), cur, {})
    requires Traced(g, latency, dist, prev, Elements(topo)) && FirstParents(g, latency, dist, prev, topo)
    requires 0 < k < |path| && Follows(prev, path) && Rival(g, topo, path, k, q) && path[k] in dist
    ensures HeadWeight(latency, q) < dist[path[k]]
  {
    var u := q[|q| - 2];
    ArrivesWithin(g, latency, dist, topo, q);
    assert Edge(q[|q| - 1 - 1], q[|q| - 1]) in g.edges;
    assert path[k] in prev && prev[path[k]] == path[k - 1];
    assert Edge(u, path[k]) in g.edges && Ahead(topo, u, prev[path[k]]);
  }

  lemma ArrivesWithin(g: Graph, latency: map<NodeId, real>, dist: map<NodeId, real>, topo: seq<NodeId>,
                      q: seq<NodeId>)
    requires WellFormed(g) && latency.Keys == dist.Keys == Elements(g.nodes) && IsKahnOrder(g, topo)
    requires forall cur :: Relaxed(g, latency, dist, Elements(topo), cur, {})
    requires forall v :: v in dist ==> dist[v] >= 0.0
    requires IsPath(g, q) && HeadClear(g, q) && |q| >= 2
    ensures q[|q| - 2] in dist && HeadWeight(latency, q) <= dist[q[|q| - 2]] + latency[q[|q| - 2]]
  {
    var n := |q| - 1;
    var head := q[..n];
    SubPath(g, q, 0, n);
    assert q[0..n] == head && HeadClear(g, head);
    PassBoundsPath(g, latency, dist, topo, head[0], head);
    HeadWeightSnoc(latency, q);
  }
}
