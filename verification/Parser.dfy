/** The parser's graph analysis, and the whole pass from configuration to accepted graph. */
module Parser {
  import opened Graphs
  import opened Dags
  import opened Pipeline
  import opened Wrappers
  import opened HookChains
  import opened PipelineOrders

  /** Nodes that neither are roots nor are reachable from one. */
  method DetectUnusedNodes(dag: DiGraph) returns (unreachable: set<string>)
    requires dag.Valid()
    ensures forall v :: v in unreachable <==> v in dag.attrs && !HasRoot(dag.View().Shape(), v)
  {
    var g := Graph(dag.attrs.Keys, dag.edges);
    assert g == dag.View().Shape();
    var roots := set v | v in g.nodes && forall e :: e in g.edges ==> e.1 != v;
    forall v ensures v in roots <==> IsRoot(g, v) {
      if v in roots {
        forall u ensures (u, v) !in g.edges {
          assert (u, v) in g.edges ==> (u, v).1 == v;
        }
      }
    }
    var reachable: set<string> := {};
    var todo := roots;
    while todo != {}
      invariant todo <= roots
      invariant forall v :: v in reachable <==> exists r :: r in roots - todo && v != r && Reach(g.edges, r, v)
    {
      var root :| root in todo;
      todo := todo - {root};
      var found := Descendants(g, root);
      reachable := reachable + found;
    }
    unreachable := g.nodes - reachable - roots;
    forall v | v in g.nodes ensures v in unreachable <==> !HasRoot(g, v) {
      ReachRefl(g.edges, v);
      if v in reachable {
        var r :| r in roots && v != r && Reach(g.edges, r, v);
        assert IsRoot(g, r);
      }
      if r :| IsRoot(g, r) && Reach(g.edges, r, v) {
        assert r in roots - {};
      }
    }
  }

  method AnalyzeDag(dag: DiGraph) returns (result: Result<(), Error>)
    requires dag.Valid()
    ensures result == if Acyclic(dag.edges) then Ok(()) else Err(ContainsCycles)
  {
    var acyclic, _ := TopologicalGenerations(Graph(dag.attrs.Keys, dag.edges));
    if !acyclic {
      return Err(ContainsCycles);
    }
    var unreachable := DetectUnusedNodes(dag);
    AcyclicNodesHaveRoots(dag.View().Shape());
    if unreachable != {} {
      return Err(UnreachableNodes(unreachable));
    }
    return Ok(());
  }

  /** Accepts a configuration exactly when its rules hold and its graph, hook chains included, is acyclic. */
  method Parse(config: Config) returns (result: Result<DiGraph, Error>)
    ensures result.Ok? <==> RulesHold(config) && Acyclic(AllEdges(config))
    ensures result.Ok? ==> result.value.Valid() && IsDagOf(config, result.value.View())
    ensures RulesHold(config) && !Acyclic(AllEdges(config)) ==> result == Err(ContainsCycles)
    ensures result.Ok? ==> forall order :: IsTopologicalOrder(result.value.View().Shape(), order) ==>
                             RespectsPipeline(config, order)
    ensures KeysApart(config.Keys) ==>
              (result.Ok? <==> RulesHold(config) && Acyclic(DependencyEdges(config)) && NoHookRepeats(config))
  {
    if RulesHold(config) && KeysApart(config.Keys) {
      HooksKeepAcyclicIff(config);
    }
    var rules := ValidateDagRules(config);
    if rules.Err? {
      return Err(rules.error);
    }
    var dag := BuildDag(config);
    DagEdges(config, dag.View());
    var analysis := AnalyzeDag(dag);
    if analysis.Err? {
      return Err(analysis.error);
    }
    forall order | IsTopologicalOrder(dag.View().Shape(), order) ensures RespectsPipeline(config, order) {
      OrdersRespectPipeline(config, dag.View().Shape(), order);
    }
    return Ok(dag);
  }
}
