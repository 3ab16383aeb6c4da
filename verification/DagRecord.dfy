/** Writing a task graph as plain data and reading it back: `to_dict` and `from_dict` of
    `zilli/dag/engine.py`. */
module DagRecord {
  import opened Common
  import opened DagGraph
  import opened TaskDag

  datatype NodeRecord = NodeRecord(
    id: NodeId, desc: string, kind: string, domain: seq<string>,
    complexity: string, cost: real, latency: real, privacyLevel: int, dependsOn: seq<NodeId>)

  datatype GraphRecord = GraphRecord(nodes: seq<NodeRecord>, edges: seq<Edge>)

  const DEFAULT_RETRIES := 2
  const DEFAULT_BACKOFF := 1.0

  function TypeName(t: TaskType): string {
    match t
    case Codegen => "codegen"
    case Train => "train"
    case Evaluate => "evaluate"
    case Deploy => "deploy"
    case Test => "test"
    case Custom => "custom"
  }

  function TypeOf(kind: string): Option<TaskType> {
    if kind == "codegen" then Some(Codegen)
    else if kind == "train" then Some(Train)
    else if kind == "evaluate" then Some(Evaluate)
    else if kind == "deploy" then Some(Deploy)
    else if kind == "test" then Some(Test)
    else if kind == "custom" then Some(Custom)
    else None
  }

  lemma TypeRoundTrip(t: TaskType)
    ensures TypeOf(TypeName(t)) == Some(t)
  {
    assert "codegen"[0] == 'c' && "custom"[0] == 'c' && "codegen"[1] == 'o' && "custom"[1] == 'u';
    assert "train"[0] == 't' && "test"[0] == 't' && "train"[1] == 'r' && "test"[1] == 'e';
    assert "evaluate"[0] == 'e' && "deploy"[0] == 'd';
  }

  /** The names of the types. */
  lemma TypesSpelled(t: TaskType)
    ensures TypeName(Codegen) == "codegen" && TypeName(Train) == "train" && TypeName(Evaluate) == "evaluate"
    ensures TypeName(Deploy) == "deploy" && TypeName(Test) == "test" && TypeName(Custom) == "custom"
    ensures forall kind :: TypeOf(kind) == Some(t) <==> kind == TypeName(t)
  {
    TypeRoundTrip(t);
  }

  // ----- writing -----

  function RecordOf(n: DagNode, dependsOn: seq<NodeId>): NodeRecord {
    NodeRecord(n.taskId, n.description, TypeName(n.taskType), n.domainTags, n.complexity, n.cost, n.latency,
               n.privacyLevel, dependsOn)
  }

  ghost predicate Describes(g: Graph, nodes: map<NodeId, DagNode>) {
    && WellFormed(g)
    && nodes.Keys == Elements(g.nodes)
    && forall v :: v in nodes ==> nodes[v].taskId == v
  }

  /** `r` is what writing the graph gives. */
  ghost predicate Written(g: Graph, nodes: map<NodeId, DagNode>, r: GraphRecord) {
    && r.edges == g.edges && |r.nodes| == |g.nodes|
    && forall i :: 0 <= i < |g.nodes| ==> RecordIs(g, nodes, i, r.nodes[i])
  }

  ghost predicate RecordIs(g: Graph, nodes: map<NodeId, DagNode>, i: nat, r: NodeRecord)
    requires i < |g.nodes|
  {
    var v := g.nodes[i];
    v in nodes && r == RecordOf(nodes[v], Parents(g.edges, v))
  }

  /** A written node, field by field. */
  lemma WrittenSpelled(g: Graph, nodes: map<NodeId, DagNode>, r: GraphRecord, i: nat)
    requires Describes(g, nodes) && Written(g, nodes, r) && i < |g.nodes|
    ensures g.nodes[i] in nodes && |r.nodes| == |g.nodes| && r.edges == g.edges
    ensures var n, w := nodes[g.nodes[i]], r.nodes[i];
            && w.id == g.nodes[i] && w.desc == n.description && w.kind == TypeName(n.taskType)
            && w.domain == n.domainTags && w.complexity == n.complexity && w.cost == n.cost && w.latency == n.latency
            && w.privacyLevel == n.privacyLevel
            && forall u :: u in w.dependsOn <==> Edge(u, g.nodes[i]) in g.edges
  {
    assert RecordIs(g, nodes, i, r.nodes[i]);
    ListsHave(g.edges, g.nodes[i]);
  }

  method ToDict(dag: TaskDAG) returns (r: GraphRecord)
    requires dag.Valid()
    ensures Describes(dag.View(), dag.nodes) && Written(dag.View(), dag.nodes, r)
  {
    var records := WriteNodes(dag.View(), dag.order, dag.nodes, dag.reverseAdj);
    r := GraphRecord(records, dag.edges);
  }

  method WriteNodes(ghost g: Graph, order: seq<NodeId>, nodes: map<NodeId, DagNode>,
                    reverseAdj: map<NodeId, seq<NodeId>>)
    returns (records: seq<NodeRecord>)
    requires order == g.nodes && Describes(g, nodes)
    requires forall v :: Lookup(reverseAdj, v) == Parents(g.edges, v)
    ensures |records| == |g.nodes| && forall i :: 0 <= i < |g.nodes| ==> RecordIs(g, nodes, i, records[i])
  {
    records := [];
    for i := 0 to |order|
      invariant |records| == i
      invariant forall k :: 0 <= k < i ==> RecordIs(g, nodes, k, records[k])
    {
      var v := order[i];
      assert v in Elements(order);
      records := records + [RecordOf(nodes[v], Lookup(reverseAdj, v))];
    }
  }

  // ----- reading -----

  function Ids(records: seq<NodeRecord>): seq<NodeId> {
    seq(|records|, i requires 0 <= i < |records| => records[i].id)
  }

  function NodeOf(r: NodeRecord, t: TaskType): DagNode {
    DagNode(r.id, r.desc, t, r.domain, r.complexity, r.cost, r.latency, r.privacyLevel, map[], map[], [], "",
            DEFAULT_RETRIES, DEFAULT_BACKOFF)
  }

  /** A node with the fields that are not written back at their defaults. */
  function Stripped(n: DagNode): DagNode {
    n.(inputSpec := map[], outputSpec := map[], complianceTags := [], hint := "", maxRetries := DEFAULT_RETRIES,
       backoff := DEFAULT_BACKOFF)
  }

  ghost predicate Loadable(records: seq<NodeRecord>) {
    Distinct(Ids(records)) && forall i :: 0 <= i < |records| ==> TypeOf(records[i].kind).Some?
  }

  ghost predicate NodesLoaded(records: seq<NodeRecord>, nodes: map<NodeId, DagNode>) {
    && nodes.Keys == Elements(Ids(records))
    && forall i :: 0 <= i < |records| ==>
         records[i].id in nodes && TypeOf(records[i].kind).Some? &&
             nodes[records[i].id] == NodeOf(records[i], TypeOf(records[i].kind).value)
  }

  lemma LoadStep(records: seq<NodeRecord>, i: nat, nodes: map<NodeId, DagNode>)
    requires i < |records| && Loadable(records[..i]) && NodesLoaded(records[..i], nodes)
    ensures var r := records[i];
            if TypeOf(r.kind) == None || r.id in nodes then !Loadable(records)
            else && Loadable(records[..i + 1])
                 && NodesLoaded(records[..i + 1], nodes[r.id := NodeOf(r, TypeOf(r.kind).value)])
                 && Ids(records[..i + 1]) == Ids(records[..i]) + [r.id]
  {
    var r := records[i];
    var ids := Ids(records[..i]);
    assert records[..i + 1] == records[..i] + [r];
    assert Ids(records[..i + 1]) == ids + [r.id];
    if r.id in nodes {
      var k :| 0 <= k < i && ids[k] == r.id;
      assert Ids(records)[k] == Ids(records)[i];
    }
  }

  method LoadNodes(dag: TaskDAG, records: seq<NodeRecord>) returns (ok: bool)
    requires dag.Valid() && dag.View() == Graph([], [])
    modifies dag
    ensures dag.Valid() && dag.edges == []
    ensures ok <==> Loadable(records)
    ensures ok ==> dag.order == Ids(records) && NodesLoaded(records, dag.nodes)
    ensures ok ==> forall v :: v in dag.status ==> dag.status[v] == Pending
  {
    for i := 0 to |records|
      invariant dag.Valid() && dag.edges == []
      invariant Loadable(records[..i])
      invariant dag.order == Ids(records[..i]) && NodesLoaded(records[..i], dag.nodes)
      invariant forall v :: v in dag.status ==> dag.status[v] == Pending
    {
      var r := records[i];
      LoadStep(records, i, dag.nodes);
      if TypeOf(r.kind) == None { return false; }
      var added := dag.AddNode(NodeOf(r, TypeOf(r.kind).value), Pending);
      if added != Done { return false; }
    }
    assert records[..|records|] == records;
    ok := true;
  }

  /** The endpoints of an edge are known, and they differ. */
  predicate Fits(known: set<NodeId>, e: Edge) {
    e.source != e.target && e.source in known && e.target in known
  }

  method LoadEdges(dag: TaskDAG, edges: seq<Edge>) returns (ok: bool)
    requires dag.Valid() && dag.edges == []
    modifies dag
    ensures dag.Valid() && dag.nodes == old(dag.nodes) && dag.order == old(dag.order) && dag.status == old(dag.status)
    ensures ok <==> forall e :: e in edges ==> Fits(dag.nodes.Keys, e)
    ensures ok ==> dag.edges == edges
  {
    for i := 0 to |edges|
      invariant dag.Valid() && dag.nodes == old(dag.nodes) && dag.order == old(dag.order) &&
                dag.status == old(dag.status)
      invariant dag.edges == edges[..i] && forall e :: e in edges[..i] ==> Fits(dag.nodes.Keys, e)
    {
      assert edges[..i + 1] == edges[..i] + [edges[i]];
      assert edges[i] in edges;
      var added := dag.AddEdge(edges[i].source, edges[i].target);
      if added != Done { return false; }
    }
    assert edges[..|edges|] == edges;
    ok := true;
  }

  /** A node's dependencies are added as edges unless they are edges already. */
  function WithDependencies(edges: seq<Edge>, id: NodeId, dependsOn: seq<NodeId>): seq<Edge> {
    if dependsOn == [] then edges else
      var before := WithDependencies(edges, id, dependsOn[..|dependsOn| - 1]);
      var e := Edge(dependsOn[|dependsOn| - 1], id);
      if e in before then before else before + [e]
  }

  function WithAllDependencies(edges: seq<Edge>, records: seq<NodeRecord>): seq<Edge> {
    if records == [] then edges else
      var last := records[|records| - 1];
      WithDependencies(WithAllDependencies(edges, records[..|records| - 1]), last.id, last.dependsOn)
  }

  ghost predicate DependenciesFit(known: set<NodeId>, id: NodeId, dependsOn: seq<NodeId>) {
    forall d :: d in dependsOn ==> Fits(known, Edge(d, id))
  }

  method LoadDependency(dag: TaskDAG, id: NodeId, d: NodeId) returns (ok: bool)
    requires dag.Valid()
    modifies dag
    ensures dag.Valid() && dag.nodes == old(dag.nodes) && dag.order == old(dag.order) && dag.status == old(dag.status)
    ensures ok <==> Fits(dag.nodes.Keys, Edge(d, id))
    ensures ok ==> dag.edges == if Edge(d, id) in old(dag.edges) then old(dag.edges) else old(dag.edges) + [Edge(d, id)]
  {
    if Edge(d, id) in dag.edges { return true; }
    var added := dag.AddEdge(d, id);
    ok := added == Done;
  }

  lemma NextDependency(known: set<NodeId>, edges: seq<Edge>, id: NodeId, dependsOn: seq<NodeId>, i: nat)
    requires i < |dependsOn| && DependenciesFit(known, id, dependsOn[..i])
    ensures var before, e := WithDependencies(edges, id, dependsOn[..i]), Edge(dependsOn[i], id);
            WithDependencies(edges, id, dependsOn[..i + 1]) == if e in before then before else before + [e]
    ensures if Fits(known, Edge(dependsOn[i], id)) then DependenciesFit(known, id, dependsOn[..i + 1])
            else !DependenciesFit(known, id, dependsOn)
  {
    assert dependsOn[..i + 1] == dependsOn[..i] + [dependsOn[i]];
    assert dependsOn[..i + 1][..i] == dependsOn[..i];
    assert dependsOn[i] in dependsOn;
  }

  method LoadDependencies(dag: TaskDAG, id: NodeId, dependsOn: seq<NodeId>) returns (ok: bool)
    requires dag.Valid()
    modifies dag
    ensures dag.Valid() && dag.nodes == old(dag.nodes) && dag.order == old(dag.order) && dag.status == old(dag.status)
    ensures ok <==> DependenciesFit(dag.nodes.Keys, id, dependsOn)
    ensures ok ==> dag.edges == WithDependencies(old(dag.edges), id, dependsOn)
  {
    for i := 0 to |dependsOn|
      invariant dag.Valid() && dag.nodes == old(dag.nodes) && dag.order == old(dag.order) &&
                dag.status == old(dag.status)
      invariant DependenciesFit(dag.nodes.Keys, id, dependsOn[..i])
      invariant dag.edges == WithDependencies(old(dag.edges), id, dependsOn[..i])
    {
      NextDependency(dag.nodes.Keys, old(dag.edges), id, dependsOn, i);
      ok := LoadDependency(dag, id, dependsOn[i]);
      if !ok { return; }
    }
    assert dependsOn[..|dependsOn|] == dependsOn;
    ok := true;
  }

  ghost predicate AllDependenciesFit(known: set<NodeId>, records: seq<NodeRecord>) {
    forall i :: 0 <= i < |records| ==> DependenciesFit(known, records[i].id, records[i].dependsOn)
  }

  method LoadAllDependencies(dag: TaskDAG, records: seq<NodeRecord>) returns (ok: bool)
    requires dag.Valid()
    modifies dag
    ensures dag.Valid() && dag.nodes == old(dag.nodes) && dag.order == old(dag.order) && dag.status == old(dag.status)
    ensures ok <==> AllDependenciesFit(dag.nodes.Keys, records)
    ensures ok ==> dag.edges == WithAllDependencies(old(dag.edges), records)
  {
    for i := 0 to |records|
      invariant dag.Valid() && dag.nodes == old(dag.nodes) && dag.order == old(dag.order) &&
                dag.status == old(dag.status)
      invariant AllDependenciesFit(dag.nodes.Keys, records[..i])
      invariant dag.edges == WithAllDependencies(old(dag.edges), records[..i])
    {
      assert records[..i + 1][..i] == records[..i];
      ok := LoadDependencies(dag, records[i].id, records[i].dependsOn);
      if !ok { return; }
    }
    assert records[..|records|] == records;
    ok := true;
  }

  /** Reading succeeds exactly on these records. */
  ghost predicate Readable(r: GraphRecord) {
    var known := Elements(Ids(r.nodes));
    && Loadable(r.nodes)
    && (forall e :: e in r.edges ==> Fits(known, e))
    && AllDependenciesFit(known, r.nodes)
  }

  /** A node as it is read: every field may be missing, and all but the id have a default. */
  datatype NodeInput = NodeInput(
    id: Option<NodeId>, desc: Option<string>, kind: Option<string>, domain: Option<seq<string>>,
    complexity: Option<string>, cost: Option<real>, latency: Option<real>, privacyLevel: Option<int>,
    dependsOn: Option<seq<NodeId>>)

  datatype EdgeInput = EdgeInput(source: Option<NodeId>, target: Option<NodeId>)

  datatype GraphInput = GraphInput(nodes: Option<seq<NodeInput>>, edges: Option<seq<EdgeInput>>)

  /** Every node has its id, and every edge its end points. */
  predicate Complete(d: GraphInput) {
    && (forall i :: 0 <= i < |OrElse(d.nodes, [])| ==> d.nodes.value[i].id.Some?)
    && (forall i :: 0 <= i < |OrElse(d.edges, [])| ==> d.edges.value[i].source.Some? && d.edges.value[i].target.Some?)
  }

  function Filled(n: NodeInput): NodeRecord
    requires n.id.Some?
  {
    NodeRecord(n.id.value, OrElse(n.desc, ""), OrElse(n.kind, "custom"), OrElse(n.domain, []),
               OrElse(n.complexity, "medium"),
               OrElse(n.cost, 0.0), OrElse(n.latency, 0.0), OrElse(n.privacyLevel, 0), OrElse(n.dependsOn, []))
  }

  function FilledGraph(d: GraphInput): GraphRecord
    requires Complete(d)
  {
    var nodes, edges := OrElse(d.nodes, []), OrElse(d.edges, []);
    GraphRecord(seq(|nodes|, i requires 0 <= i < |nodes| => Filled(d.nodes.value[i])),
                seq(|edges|, i requires 0 <= i < |edges| =>
                      Edge(d.edges.value[i].source.value, d.edges.value[i].target.value)))
  }

  /** Everything that was written, as it is read. */
  function Given(r: GraphRecord): GraphInput {
    GraphInput(Some(seq(|r.nodes|, i requires 0 <= i < |r.nodes| => GivenNode(r.nodes[i]))),
               Some(seq(|r.edges|, i requires 0 <= i < |r.edges| =>
                          EdgeInput(Some(r.edges[i].source), Some(r.edges[i].target)))))
  }

  function GivenNode(n: NodeRecord): NodeInput {
    NodeInput(Some(n.id), Some(n.desc), Some(n.kind), Some(n.domain), Some(n.complexity), Some(n.cost), Some(n.latency),
              Some(n.privacyLevel), Some(n.dependsOn))
  }

  method FromDict(d: GraphInput) returns (ok: bool, dag: TaskDAG)
    ensures fresh(dag) && dag.Valid()
    ensures ok <==> Complete(d) && Readable(FilledGraph(d))
    ensures ok ==> var r := FilledGraph(d);
                   dag.View() == Graph(Ids(r.nodes), WithAllDependencies(r.edges, r.nodes)) &&
                       NodesLoaded(r.nodes, dag.nodes)
    ensures ok ==> forall v :: v in dag.status ==> dag.status[v] == Pending
  {
    dag := new TaskDAG();
    if !Complete(d) { return false, dag; }
    var r := FilledGraph(d);
    ok := LoadNodes(dag, r.nodes);
    if !ok { return; }
    ok := LoadEdges(dag, r.edges);
    if !ok { return; }
    ok := LoadAllDependencies(dag, r.nodes);
  }

  /** A node that was read, field by field. */
  lemma ReadSpelled(d: GraphInput, nodes: map<NodeId, DagNode>, i: nat)
    requires Complete(d) && d.nodes.Some? && i < |d.nodes.value| && NodesLoaded(FilledGraph(d).nodes, nodes)
    ensures var w := d.nodes.value[i];
            && w.id.Some? && w.id.value in nodes
            && var n := nodes[w.id.value];
               && n.taskId == w.id.value && n.description == OrElse(w.desc, "")
               && TypeName(n.taskType) == OrElse(w.kind, "custom") && n.domainTags == OrElse(w.domain, [])
               && n.complexity == OrElse(w.complexity, "medium") && n.cost == OrElse(w.cost, 0.0)
               && n.latency == OrElse(w.latency, 0.0) && n.privacyLevel == OrElse(w.privacyLevel, 0)
               && n.inputSpec == map[] && n.outputSpec == map[] && n.complianceTags == [] && n.hint == ""
               && n.maxRetries == 2 && n.backoff == 1.0
  {
    var r := FilledGraph(d).nodes[i];
    assert r.id in nodes && TypeOf(r.kind).Some? && nodes[r.id] == NodeOf(r, TypeOf(r.kind).value);
    TypesSpelled(TypeOf(r.kind).value);
  }

  // ----- both -----

  lemma {:induction false} NothingToAdd(edges: seq<Edge>, id: NodeId, dependsOn: seq<NodeId>)
    requires forall d :: d in dependsOn ==> Edge(d, id) in edges
    ensures WithDependencies(edges, id, dependsOn) == edges
  {
    if dependsOn != [] {
      var n := |dependsOn| - 1;
      assert dependsOn[n] in dependsOn;
      NothingToAdd(edges, id, dependsOn[..n]);
    }
  }

  lemma {:induction false} NothingToAddAtAll(edges: seq<Edge>, records: seq<NodeRecord>)
    requires forall i :: 0 <= i < |records| ==> records[i].dependsOn == Parents(edges, records[i].id)
    ensures WithAllDependencies(edges, records) == edges
  {
    if records != [] {
      var last := records[|records| - 1];
      NothingToAddAtAll(edges, records[..|records| - 1]);
      ListsHave(edges, last.id);
      NothingToAdd(edges, last.id, last.dependsOn);
    }
  }

  /** Reading back what was written succeeds and gives the same graph, edge for edge, and the
      same nodes, but for the fields that are not written: they come back as their defaults. */
  lemma RoundTrip(g: Graph, nodes: map<NodeId, DagNode>, r: GraphRecord, nodes': map<NodeId, DagNode>)
    requires Describes(g, nodes) && Written(g, nodes, r)
    ensures Complete(Given(r)) && FilledGraph(Given(r)) == r && Readable(r)
    ensures Ids(r.nodes) == g.nodes && WithAllDependencies(r.edges, r.nodes) == g.edges
    ensures NodesLoaded(r.nodes, nodes') <==>
              nodes'.Keys == nodes.Keys && forall v :: v in nodes ==> nodes'[v] == Stripped(nodes[v])
  {
    GivenFilled(r);
    WrittenReadable(g, nodes, r);
    forall i | 0 <= i < |r.nodes| ensures r.nodes[i].dependsOn == Parents(g.edges, r.nodes[i].id) {
      assert RecordIs(g, nodes, i, r.nodes[i]);
    }
    NothingToAddAtAll(g.edges, r.nodes);
    WrittenNodes(g, nodes, r, nodes');
  }

  /** Everything written is there to be read. */
  lemma GivenFilled(r: GraphRecord)
    ensures Complete(Given(r)) && FilledGraph(Given(r)) == r
  {
  }

  lemma WrittenReadable(g: Graph, nodes: map<NodeId, DagNode>, r: GraphRecord)
    requires Describes(g, nodes) && Written(g, nodes, r) && Ids(r.nodes) == g.nodes
    ensures Readable(r)
  {
    var known := Elements(g.nodes);
    forall i | 0 <= i < |r.nodes|
      ensures TypeOf(r.nodes[i].kind).Some?
      ensures DependenciesFit(known, r.nodes[i].id, r.nodes[i].dependsOn)
    {
      assert RecordIs(g, nodes, i, r.nodes[i]);
      TypeRoundTrip(nodes[g.nodes[i]].taskType);
      ListsHave(g.edges, g.nodes[i]);
    }
    forall e | e in r.edges ensures Fits(known, e) {}
  }

  lemma WrittenNodes(g: Graph, nodes: map<NodeId, DagNode>, r: GraphRecord, nodes': map<NodeId, DagNode>)
    requires Describes(g, nodes) && Written(g, nodes, r) && Ids(r.nodes) == g.nodes
    ensures NodesLoaded(r.nodes, nodes') <==>
              nodes'.Keys == nodes.Keys && forall v :: v in nodes ==> nodes'[v] == Stripped(nodes[v])
  {
    forall i | 0 <= i < |r.nodes| ensures ReadAs(nodes, r.nodes[i], g.nodes[i]) {
      assert RecordIs(g, nodes, i, r.nodes[i]);
      TypeRoundTrip(nodes[g.nodes[i]].taskType);
    }
    if NodesLoaded(r.nodes, nodes') {
      forall v | v in nodes ensures nodes'[v] == Stripped(nodes[v]) {
        var i :| 0 <= i < |g.nodes| && g.nodes[i] == v;
        assert ReadAs(nodes, r.nodes[i], g.nodes[i]);
      }
    } else if nodes'.Keys == nodes.Keys {
      var i :| 0 <= i < |r.nodes| &&
               !(r.nodes[i].id in nodes' && TypeOf(r.nodes[i].kind).Some? &&
                 nodes'[r.nodes[i].id] == NodeOf(r.nodes[i], TypeOf(r.nodes[i].kind).value));
      assert ReadAs(nodes, r.nodes[i], g.nodes[i]);
    }
  }

  ghost predicate ReadAs(nodes: map<NodeId, DagNode>, r: NodeRecord, v: NodeId) {
    && v in nodes && r.id == v && TypeOf(r.kind).Some?
    && NodeOf(r, TypeOf(r.kind).value) == Stripped(nodes[v])
  }

  /** Reading adds each listed dependency, and nothing it was not given. */
  lemma {:induction false} DependenciesAdded(edges: seq<Edge>, id: NodeId, dependsOn: seq<NodeId>, e: Edge)
    ensures e in WithDependencies(edges, id, dependsOn) <==> e in edges || (e.target == id && e.source in dependsOn)
  {
    if dependsOn != [] {
      var n := |dependsOn| - 1;
      assert dependsOn == dependsOn[..n] + [dependsOn[n]];
      DependenciesAdded(edges, id, dependsOn[..n], e);
      DependenciesAdded(edges, id, dependsOn[..n], Edge(dependsOn[n], id));
    }
  }

  lemma {:induction false} EdgesRead(edges: seq<Edge>, records: seq<NodeRecord>, e: Edge)
    ensures e in WithAllDependencies(edges, records)
       <==> e in edges || exists i ::
              0 <= i < |records| && e.target == records[i].id && e.source in records[i].dependsOn
  {
    if records != [] {
      var n := |records| - 1;
      EdgesRead(edges, records[..n], e);
      DependenciesAdded(WithAllDependencies(edges, records[..n]), records[n].id, records[n].dependsOn, e);
      if e in WithAllDependencies(edges, records) && e !in edges && e !in WithAllDependencies(edges, records[..n]) {
        assert e.target == records[n].id && e.source in records[n].dependsOn;
      }
      forall i | 0 <= i < n ensures records[..n][i] == records[i] {}
    }
  }
}
