/** The pipeline parser after schema loading: the DAG rules, graph construction with hook chains, and the
    structural analysis that accepts or rejects the graph. */
module Pipeline {
  import opened Graphs
  import opened Dags
  import opened Wrappers

  datatype NodeConfig = NodeConfig(kind: string, executor: string, dependsOn: seq<string>,
                                   hooks: map<string, seq<string>>)

  type Config = map<string, NodeConfig>

  datatype Error =
    | InvalidDependencies(node: string, missing: set<string>)
    | ExecutorRequired(node: string)
    | ContainsCycles
    | UnreachableNodes(nodes: set<string>)

  const HOOK_TYPES: seq<string> := ["pre_execute", "post_success", "post_failure"]

  // ----- Rules -----

  function MissingDependencies(config: Config, node: string): set<string>
    requires node in config
  {
    Elements(config[node].dependsOn) - config.Keys
  }

  predicate NeedsExecutor(config: Config, node: string)
    requires node in config
  {
    config[node].kind == "service" && config[node].executor == "default"
  }

  predicate RulesHold(config: Config) {
    forall n :: n in config ==> MissingDependencies(config, n) == {} && !NeedsExecutor(config, n)
  }

  method ValidateDagRules(config: Config) returns (result: Result<(), Error>)
    ensures result.Ok? <==> RulesHold(config)
    ensures result.Ok? <==> forall n :: n in config ==>
              && (forall d :: d in config[n].dependsOn ==> d in config)
              && !(config[n].kind == "service" && config[n].executor == "default")
    ensures result.Err? ==>
              match result.error
              case InvalidDependencies(n, missing) => n in config && missing == MissingDependencies(config, n) &&
                  missing != {}
              case ExecutorRequired(n) => n in config && NeedsExecutor(config, n)
              case _ => false
  {
    var todo := config.Keys;
    while todo != {}
      invariant todo <= config.Keys
      invariant forall n :: n in config && n !in todo ==>
                MissingDependencies(config, n) == {} && !NeedsExecutor(config, n)
    {
      var n :| n in todo;
      todo := todo - {n};
      var invalid := Elements(config[n].dependsOn) - config.Keys;
      if invalid != {} {
        return Err(InvalidDependencies(n, invalid));
      }
      if config[n].kind == "service" && config[n].executor == "default" {
        return Err(ExecutorRequired(n));
      }
    }
    return Ok(());
  }

  // ----- The graph of a configuration -----

  function HookId(node: string, hookType: string, hook: string): string {
    node + "." + hookType + "." + hook
  }

  function HooksOfType(hooks: map<string, seq<string>>, hookType: string): seq<string> {
    if hookType in hooks then hooks[hookType] else []
  }

  function HookIds(node: string, hookType: string, names: seq<string>): (ids: seq<string>)
    ensures |ids| == |names| && forall i :: 0 <= i < |ids| ==> ids[i] == HookId(node, hookType, names[i])
  {
    seq(|names|, i requires 0 <= i < |names| => HookId(node, hookType, names[i]))
  }

  /** The hook nodes of `node` for the first `k` hook types, in chain order. */
  function HookChain(node: string, hooks: map<string, seq<string>>, k: nat): seq<string>
    requires k <= |HOOK_TYPES|
  {
    if k == 0 then []
    else HookChain(node, hooks, k - 1) + HookIds(node, HOOK_TYPES[k - 1], HooksOfType(hooks, HOOK_TYPES[k - 1]))
  }

  function FullChain(node: string, hooks: map<string, seq<string>>): seq<string> {
    HookChain(node, hooks, |HOOK_TYPES|)
  }

  /** Edges from a node to each of its hooks and from each hook to the next. */
  function ChainEdges(node: string, chain: seq<string>): set<(string, string)> {
    if chain == [] then {}
    else
      var before, last := chain[..|chain| - 1], chain[|chain| - 1];
      ChainEdges(node, before) + {(node, last)} + (if before == [] then {} else {(before[|before| - 1], last)})
  }

  ghost predicate FollowsIn(chain: seq<string>, a: string, b: string) {
    exists i, j :: 0 <= i && j == i + 1 < |chain| && a == chain[i] && b == chain[j]
  }

  lemma {:induction false} ChainEdgesMeaning(node: string, chain: seq<string>, a: string, b: string)
    ensures (a, b) in ChainEdges(node, chain) <==> (a == node && b in chain) || FollowsIn(chain, a, b)
  {
    if chain == [] {
    } else {
      var n := |chain| - 1;
      var before := chain[..n];
      ChainEdgesMeaning(node, before, a, b);
      assert chain == before + [chain[n]];
      assert FollowsIn(chain, a, b) <==> FollowsIn(before, a, b) || (n > 0 && a == before[n - 1] && b == chain[n]) by {
        if FollowsIn(chain, a, b) {
          var i, j :| 0 <= i && j == i + 1 < |chain| && a == chain[i] && b == chain[j];
          if j < n {
            assert a == before[i] && b == before[j];
          }
        }
        if FollowsIn(before, a, b) {
          var i, j :| 0 <= i && j == i + 1 < |before| && a == before[i] && b == before[j];
          assert a == chain[i] && b == chain[j];
        }
        if n > 0 && a == before[n - 1] && b == chain[n] {
          var i := n - 1;
          assert n == i + 1 && a == chain[i] && b == chain[n];
        }
      }
    }
  }

  function DependencyEdges(config: Config): set<(string, string)> {
    set n, d | n in config && d in config[n].dependsOn :: (d, n)
  }

  function HookEdges(config: Config, nodes: set<string>): set<(string, string)> {
    set n, e | n in nodes && n in config && e in ChainEdges(n, FullChain(n, config[n].hooks)) :: e
  }

  function HookNodes(config: Config, nodes: set<string>): set<string> {
    set n, c | n in nodes && n in config && c in FullChain(n, config[n].hooks) :: c
  }

  function AllEdges(config: Config): set<(string, string)> {
    DependencyEdges(config) + HookEdges(config, config.Keys)
  }

  /** `now` is `before` with `chain` hooked to `node`; `last` is the last of the chain. */
  ghost predicate Chained(now: Dag, before: Dag, node: string, chain: seq<string>, last: Option<string>) {
    && last == (if chain == [] then None else Some(chain[|chain| - 1]))
    && (forall c :: c in chain ==> c in now.attrs)
    && now.edges == before.edges + ChainEdges(node, chain)
    && now.attrs.Keys == before.attrs.Keys + Elements(chain)
    && (forall n :: n in before.attrs && n !in chain ==> now.attrs[n] == before.attrs[n])
    && (forall n :: n in chain ==> now.attrs[n].kind == "hook" && now.attrs[n].parent == node)
  }

  lemma ChainedAppend(s: Dag, s': Dag, before: Dag, node: string, chain: seq<string>, last: Option<string>, h: string)
    requires Chained(s, before, node, chain, last)
    requires s'.edges == s.edges + {(node, h)} + (if last.None? then {} else {(last.value, h)})
    requires s'.attrs.Keys == s.attrs.Keys + {h}
    requires forall n :: n in s.attrs && n != h ==> s'.attrs[n] == s.attrs[n]
    requires s'.attrs[h].kind == "hook" && s'.attrs[h].parent == node
    ensures Chained(s', before, node, chain + [h], Some(h))
  {
    var longer := chain + [h];
    assert longer[..|longer| - 1] == chain;
    assert forall n :: n in longer <==> n in chain || n == h;
    assert ChainEdges(node, longer) == ChainEdges(node, chain) + {(node, h)} +
        (if last.None? then {} else {(last.value, h)});
    assert Elements(longer) == Elements(chain) + {h};
  }

  lemma LastIsNode(s: Dag, before: Dag, node: string, chain: seq<string>, last: Option<string>)
    requires Chained(s, before, node, chain, last) && last.Some?
    ensures last.value in s.attrs
  {
    assert last.value in chain;
  }

  /** Adds one hook node below `node` and after `prevHook`, if there is one. */
  method AddHook(dag: DiGraph, node: string, prevHook: Option<string>, hookId: string, ghost before: Dag,
                 ghost chain: seq<string>)
    requires dag.Valid() && node in dag.attrs
    requires Chained(dag.View(), before, node, chain, prevHook)
    modifies dag
    ensures dag.Valid() && node in dag.attrs
    ensures Chained(dag.View(), before, node, chain + [hookId], Some(hookId))
  {
    hide Chained, WellFormed;
    ghost var s := dag.View();
    if prevHook.Some? {
      LastIsNode(s, before, node, chain, prevHook);
    }
    dag.AddNode(hookId, (if hookId in dag.attrs then dag.attrs[hookId] else BARE).(kind := "hook", parent := node));
    dag.AddEdge(node, hookId);
    if prevHook.Some? {
      dag.AddEdge(prevHook.value, hookId);
    }
    ChainedAppend(s, dag.View(), before, node, chain, prevHook, hookId);
  }

  /** Chains the hooks of one node. */
  method ChainHooks(dag: DiGraph, node: string, hooks: map<string, seq<string>>)
    requires dag.Valid() && node in dag.attrs
    modifies dag
    ensures dag.Valid()
    ensures exists last :: Chained(dag.View(), old(dag.View()), node, FullChain(node, hooks), last)
  {
    hide Chained, HookId, HookIds;
    ghost var before := dag.View();
    var prevHook := None;
    ghost var chain: seq<string> := [];
    NothingChained(before, node);
    for t := 0 to |HOOK_TYPES|
      invariant dag.Valid() && node in dag.attrs
      invariant chain == HookChain(node, hooks, t)
      invariant Chained(dag.View(), before, node, chain, prevHook)
    {
      var names := HooksOfType(hooks, HOOK_TYPES[t]);
      ghost var start := chain;
      assert names[..0] == [];
      assert start + HookIds(node, HOOK_TYPES[t], []) == start;
      for k := 0 to |names|
        invariant dag.Valid() && node in dag.attrs
        invariant chain == start + HookIds(node, HOOK_TYPES[t], names[..k])
        invariant Chained(dag.View(), before, node, chain, prevHook)
      {
        var hookId := HookId(node, HOOK_TYPES[t], names[k]);
        AddHook(dag, node, prevHook, hookId, before, chain);
        prevHook := Some(hookId);
        assert start + HookIds(node, HOOK_TYPES[t], names[..k + 1]) == chain + [hookId] by {
          HookIdsStep(node, HOOK_TYPES[t], names, k);
        }
        chain := chain + [hookId];
      }
      assert names[..|names|] == names;
    }
    assert Chained(dag.View(), before, node, FullChain(node, hooks), prevHook);
  }

  lemma NothingChained(s: Dag, node: string)
    ensures Chained(s, s, node, [], None)
  {
    assert s.attrs.Keys == s.attrs.Keys + Elements<string>([]);
  }

  lemma HookIdsStep(node: string, hookType: string, names: seq<string>, k: nat)
    requires k < |names|
    ensures HookIds(node, hookType, names[..k + 1]) == HookIds(node, hookType, names[..k]) +
              [HookId(node, hookType, names[k])]
  {
  }

  /** `v` is labelled as a hook of one of `nodes` whose chain contains it. */
  ghost predicate IsLabelledHook(config: Config, nodes: set<string>, attrs: map<string, Attributes>, v: string) {
    && v in attrs && attrs[v].kind == "hook" && attrs[v].parent in nodes && attrs[v].parent in config
    && v in FullChain(attrs[v].parent, config[attrs[v].parent].hooks)
  }

  /** `now` is `before` with the hook chains of `nodes`; other nodes keep their attributes. */
  ghost predicate Hooked(now: Dag, before: Dag, config: Config, nodes: set<string>) {
    && now.edges == before.edges + HookEdges(config, nodes)
    && now.attrs.Keys == before.attrs.Keys + HookNodes(config, nodes)
    && (forall v :: v in HookNodes(config, nodes) ==> IsLabelledHook(config, nodes, now.attrs, v))
    && (forall v :: v in before.attrs && v !in HookNodes(config, nodes) ==> now.attrs[v] == before.attrs[v])
  }

  /** Hook chains for every node of a snapshot of the pipeline nodes. */
  method ProcessHookDependencies(dag: DiGraph, config: Config)
    requires dag.Valid() && config.Keys <= dag.attrs.Keys
    modifies dag
    ensures dag.Valid() && Hooked(dag.View(), old(dag.View()), config, config.Keys)
  {
    hide Hooked, Chained, FullChain, WellFormed;
    var todo := config.Keys;
    NoHooks(dag.View(), config);
    while todo != {}
      invariant dag.Valid() && todo <= config.Keys <= dag.attrs.Keys
      invariant Hooked(dag.View(), old(dag.View()), config, config.Keys - todo)
    {
      var n :| n in todo;
      ghost var s := dag.View();
      ChainHooks(dag, n, config[n].hooks);
      ghost var last :| Chained(dag.View(), s, n, FullChain(n, config[n].hooks), last);
      HookedStep(s, dag.View(), old(dag.View()), config, config.Keys - todo, n, last);
      assert config.Keys - (todo - {n}) == (config.Keys - todo) + {n};
      todo := todo - {n};
    }
    assert config.Keys - {} == config.Keys;
  }

  lemma NoHooks(s: Dag, config: Config)
    ensures Hooked(s, s, config, config.Keys - config.Keys)
  {
    assert HookEdges(config, config.Keys - config.Keys) == {};
    assert HookNodes(config, config.Keys - config.Keys) == {};
  }

  lemma HookedStep(s: Dag, s': Dag, before: Dag, config: Config, nodes: set<string>, n: string, last: Option<string>)
    requires n in config && Hooked(s, before, config, nodes)
    requires Chained(s', s, n, FullChain(n, config[n].hooks), last)
    ensures Hooked(s', before, config, nodes + {n}) && s.attrs.Keys <= s'.attrs.Keys
  {
    hide FullChain, ChainEdges, HookEdges, HookNodes, IsLabelledHook;
    HookEdgesStep(config, nodes, n);
    forall v | v in HookNodes(config, nodes + {n}) ensures IsLabelledHook(config, nodes + {n}, s'.attrs, v) {
      LabelKept(s, s', config, nodes, n, last, v);
    }
  }

  lemma LabelKept(s: Dag, s': Dag, config: Config, nodes: set<string>, n: string, last: Option<string>, v: string)
    requires n in config && Chained(s', s, n, FullChain(n, config[n].hooks), last)
    requires v in FullChain(n, config[n].hooks) || IsLabelledHook(config, nodes, s.attrs, v)
    ensures IsLabelledHook(config, nodes + {n}, s'.attrs, v)
  {
    hide FullChain, ChainEdges;
  }

  lemma HookEdgesStep(config: Config, nodes: set<string>, n: string)
    requires n in config
    ensures HookEdges(config, nodes + {n}) == HookEdges(config, nodes) + ChainEdges(n, FullChain(n, config[n].hooks))
    ensures HookNodes(config, nodes + {n}) == HookNodes(config, nodes) + Elements(FullChain(n, config[n].hooks))
  {
    hide FullChain, ChainEdges;
    forall e ensures e in HookEdges(config, nodes + {n})
                     <==> e in HookEdges(config, nodes) || e in ChainEdges(n, FullChain(n, config[n].hooks)) {
    }
  }

  function ConfiguredAttributes(config: Config): map<string, Attributes> {
    map n | n in config :: Attributes(config[n].kind, config[n].hooks, "", [])
  }

  /** The whole graph of a configuration: its nodes with their attributes, its hooks, and all edges. */
  ghost predicate IsDagOf(config: Config, dag: Dag) {
    Hooked(dag, Dag(ConfiguredAttributes(config), DependencyEdges(config)), config, config.Keys)
  }

  lemma DagEdges(config: Config, dag: Dag)
    requires IsDagOf(config, dag)
    ensures dag.edges == AllEdges(config) && dag.attrs.Keys == config.Keys + HookNodes(config, config.Keys)
  {
  }

  method BuildDag(config: Config) returns (dag: DiGraph)
    requires RulesHold(config)
    ensures fresh(dag) && dag.Valid() && IsDagOf(config, dag.View())
    ensures forall n, d :: n in config && d in config[n].dependsOn ==> (d, n) in dag.edges
    ensures forall n :: n in config && n !in HookNodes(config, config.Keys) ==>
              n in dag.attrs && dag.attrs[n].kind == config[n].kind && dag.attrs[n].hooks == config[n].hooks
  {
    dag := new DiGraph();
    AddPipelineNodes(dag, config);
    AddDependencies(dag, config);
    ProcessHookDependencies(dag, config);
  }

  method AddPipelineNodes(dag: DiGraph, config: Config)
    requires dag.Valid() && dag.View() == Dag(map[], {})
    modifies dag
    ensures dag.Valid() && dag.edges == {}
    ensures dag.attrs == ConfiguredAttributes(config)
  {
    var todo := config.Keys;
    while todo != {}
      invariant dag.Valid() && todo <= config.Keys && dag.edges == {}
      invariant dag.attrs == map n | n in config && n !in todo :: Attributes(config[n].kind, config[n].hooks, "", [])
    {
      var n :| n in todo;
      todo := todo - {n};
      dag.AddNode(n, Attributes(config[n].kind, config[n].hooks, "", []));
    }
  }

  method AddDependencies(dag: DiGraph, config: Config)
    requires RulesHold(config)
    requires dag.Valid() && dag.attrs.Keys == config.Keys && dag.edges == {}
    modifies dag
    ensures dag.Valid() && dag.attrs == old(dag.attrs) && dag.edges == DependencyEdges(config)
  {
    var todo := config.Keys;
    while todo != {}
      invariant dag.Valid() && todo <= config.Keys && dag.attrs == old(dag.attrs)
      invariant forall u, v :: (u, v) in dag.edges <==> v in config && v !in todo && u in config[v].dependsOn
    {
      var n :| n in todo;
      todo := todo - {n};
      DependenciesExist(config, n);
      AddDependenciesOf(dag, n, config[n].dependsOn);
    }
    forall e ensures e in dag.edges <==> e in DependencyEdges(config) {
      assert e == (e.0, e.1);
    }
  }

  lemma DependenciesExist(config: Config, n: string)
    requires RulesHold(config) && n in config
    ensures Elements(config[n].dependsOn) <= config.Keys
  {
    var deps := Elements(config[n].dependsOn);
    assert MissingDependencies(config, n) == deps - config.Keys == {};
    forall d | d in deps ensures d in config {
      assert d !in deps - config.Keys;
    }
  }

  method AddDependenciesOf(dag: DiGraph, node: string, dependsOn: seq<string>)
    requires dag.Valid() && node in dag.attrs && Elements(dependsOn) <= dag.attrs.Keys
    modifies dag
    ensures dag.Valid() && dag.attrs == old(dag.attrs)
    ensures forall u, v :: (u, v) in dag.edges <==> (u, v) in old(dag.edges) || (v == node && u in dependsOn)
  {
    for i := 0 to |dependsOn|
      invariant dag.Valid() && dag.attrs == old(dag.attrs)
      invariant forall u, v :: (u, v) in dag.edges <==> (u, v) in old(dag.edges) || (v == node && u in dependsOn[..i])
    {
      assert dependsOn[i] in Elements(dependsOn);
      dag.AddEdge(dependsOn[i], node);
      assert dependsOn[..i + 1] == dependsOn[..i] + [dependsOn[i]];
    }
    assert dependsOn[..|dependsOn|] == dependsOn;
  }
}
