/** What the graph of a pipeline means for the order in which its nodes and hooks run. */
module PipelineOrders {
  import opened Graphs
  import opened Dags
  import opened Pipeline
  import opened HookChains

  ghost predicate Precedes(order: seq<string>, a: string, b: string) {
    exists i, j :: 0 <= i < j < |order| && order[i] == a && order[j] == b
  }

  ghost predicate HasHookAt(hooks: map<string, seq<string>>, hookType: string, i: int, h: string) {
    hookType in hooks && 0 <= i < |hooks[hookType]| && hooks[hookType][i] == h
  }

  /** Dependencies run before their dependents. */
  ghost predicate DependenciesFirst(config: Config, order: seq<string>) {
    forall n, d :: n in config && d in config[n].dependsOn ==> Precedes(order, d, n)
  }

  /** Each node runs before its hooks, and the hooks of one list in its order. */
  ghost predicate HooksAfterNode(config: Config, order: seq<string>, hookType: string) {
    && (forall n, i, h :: n in config && HasHookAt(config[n].hooks, hookType, i, h) ==>
          Precedes(order, n, n + "." + hookType + "." + h))
    && (forall n, i, j, h, k ::
          n in config && HasHookAt(config[n].hooks, hookType, i, h) && HasHookAt(config[n].hooks, hookType, j, k) ==>
            i < j ==> Precedes(order, n + "." + hookType + "." + h, n + "." + hookType + "." + k))
  }

  /** The hooks of one type run before those of another. */
  ghost predicate HooksBefore(config: Config, order: seq<string>, hookType: string, later: string) {
    forall n, i, j, h, k ::
      n in config && HasHookAt(config[n].hooks, hookType, i, h) && HasHookAt(config[n].hooks, later, j, k) ==>
        Precedes(order, n + "." + hookType + "." + h, n + "." + later + "." + k)
  }

  ghost predicate RespectsPipeline(config: Config, order: seq<string>) {
    && DependenciesFirst(config, order)
    && HooksAfterNode(config, order, "pre_execute")
    && HooksAfterNode(config, order, "post_success")
    && HooksAfterNode(config, order, "post_failure")
    && HooksBefore(config, order, "pre_execute", "post_success")
    && HooksBefore(config, order, "pre_execute", "post_failure")
    && HooksBefore(config, order, "post_success", "post_failure")
  }

  /** The edges of the whole graph lead from dependencies to dependents, from nodes to their hooks, and from each
      hook to the next of the same node; there are no others. */
  lemma EdgesMean(config: Config, u: string, v: string)
    ensures (u, v) in AllEdges(config) <==>
            || (v in config && u in config[v].dependsOn)
            || (exists n :: n in config && IsChainStep(n, config[n].hooks, u, v))
  {
    hide FullChain, ChainEdges;
    if n :| n in config && IsChainStep(n, config[n].hooks, u, v) {
      ChainEdgesMeaning(n, FullChain(n, config[n].hooks), u, v);
      assert (u, v) in HookEdges(config, config.Keys);
    }
    if (u, v) in HookEdges(config, config.Keys) {
      var n := HookEdgeOf(config, u, v);
      assert IsChainStep(n, config[n].hooks, u, v);
    }
  }

  ghost predicate IsChainStep(n: string, hooks: map<string, seq<string>>, u: string, v: string) {
    (u == n && v in FullChain(n, hooks)) || FollowsIn(FullChain(n, hooks), u, v)
  }

  lemma EdgePrecedes(g: Graph<string>, order: seq<string>, a: string, b: string)
    requires WellFormed(g) && IsTopologicalOrder(g, order) && (a, b) in g.edges
    ensures Precedes(order, a, b)
  {
    var i :| 0 <= i < |order| && order[i] == a;
    var j :| 0 <= j < |order| && order[j] == b;
  }

  lemma PrecedesTrans(order: seq<string>, a: string, b: string, c: string)
    requires NoDuplicates(order) && Precedes(order, a, b) && Precedes(order, b, c)
    ensures Precedes(order, a, c)
  {
  }

  /** Where the `i`-th hook of type number `t` stands in the chain. */
  lemma PlaceInChain(n: string, hooks: map<string, seq<string>>, t: nat, i: nat)
    requires t < |HOOK_TYPES| && i < |HooksOfType(hooks, HOOK_TYPES[t])|
    ensures var at := |HookChain(n, hooks, t)| + i;
            && at < |FullChain(n, hooks)|
            && FullChain(n, hooks)[at] == HookId(n, HOOK_TYPES[t], HooksOfType(hooks, HOOK_TYPES[t])[i])
  {
    var block0 := HookIds(n, HOOK_TYPES[0], HooksOfType(hooks, HOOK_TYPES[0]));
    var block1 := HookIds(n, HOOK_TYPES[1], HooksOfType(hooks, HOOK_TYPES[1]));
    var block2 := HookIds(n, HOOK_TYPES[2], HooksOfType(hooks, HOOK_TYPES[2]));
    assert HookChain(n, hooks, 1) == HookChain(n, hooks, 0) + block0;
    assert HookChain(n, hooks, 2) == HookChain(n, hooks, 1) + block1;
    assert HookChain(n, hooks, 3) == HookChain(n, hooks, 2) + block2;
  }

  lemma BlocksInOrder(n: string, hooks: map<string, seq<string>>, t: nat, u: nat)
    requires t < u < |HOOK_TYPES|
    ensures |HookChain(n, hooks, t)| + |HooksOfType(hooks, HOOK_TYPES[t])| <= |HookChain(n, hooks, u)|
  {
    assert |HookChain(n, hooks, 1)| == |HookChain(n, hooks, 0)| + |HooksOfType(hooks, HOOK_TYPES[0])|;
    assert |HookChain(n, hooks, 2)| == |HookChain(n, hooks, 1)| + |HooksOfType(hooks, HOOK_TYPES[1])|;
  }

  lemma {:induction false} ChainPrecedes(config: Config, g: Graph<string>, order: seq<string>, n: string,
                                         i: nat, j: nat)
    requires WellFormed(g) && IsTopologicalOrder(g, order) && g.edges == AllEdges(config)
    requires n in config && i < j < |FullChain(n, config[n].hooks)|
    ensures Precedes(order, FullChain(n, config[n].hooks)[i], FullChain(n, config[n].hooks)[j])
  {
    hide FullChain, AllEdges;
    var chain := FullChain(n, config[n].hooks);
    ChainStepIsEdge(config, n, j - 1);
    EdgePrecedes(g, order, chain[j - 1], chain[j]);
    if i == j - 1 {
    } else {
      ChainPrecedes(config, g, order, n, i, j - 1);
      PrecedesTrans(order, chain[i], chain[j - 1], chain[j]);
    }
  }

  lemma HookPlace(n: string, hooks: map<string, seq<string>>, t: nat, i: nat, h: string) returns (at: nat)
    requires t < |HOOK_TYPES| && HasHookAt(hooks, HOOK_TYPES[t], i, h)
    ensures at == |HookChain(n, hooks, t)| + i < |FullChain(n, hooks)|
    ensures FullChain(n, hooks)[at] == n + "." + HOOK_TYPES[t] + "." + h
    ensures at < |HookChain(n, hooks, t)| + |HooksOfType(hooks, HOOK_TYPES[t])|
  {
    PlaceInChain(n, hooks, t, i);
    at := |HookChain(n, hooks, t)| + i;
  }

  lemma NodeThenHooks(config: Config, g: Graph<string>, order: seq<string>, t: nat)
    requires WellFormed(g) && IsTopologicalOrder(g, order) && g.edges == AllEdges(config) && t < |HOOK_TYPES|
    ensures HooksAfterNode(config, order, HOOK_TYPES[t])
  {
    hide FullChain, AllEdges, HookChain, IsTopologicalOrder;
    var hookType := HOOK_TYPES[t];
    forall n, i, h | n in config && HasHookAt(config[n].hooks, hookType, i, h)
      ensures Precedes(order, n, n + "." + hookType + "." + h)
    {
      var at := HookPlace(n, config[n].hooks, t, i, h);
      OwnHookEdge(config, n, FullChain(n, config[n].hooks)[at]);
      EdgePrecedes(g, order, n, FullChain(n, config[n].hooks)[at]);
    }
    forall n, i, j, h, k |
      n in config && HasHookAt(config[n].hooks, hookType, i, h) && HasHookAt(config[n].hooks, hookType, j, k) && i < j
      ensures Precedes(order, n + "." + hookType + "." + h, n + "." + hookType + "." + k)
    {
      var at := HookPlace(n, config[n].hooks, t, i, h);
      var later := HookPlace(n, config[n].hooks, t, j, k);
      ChainPrecedes(config, g, order, n, at, later);
    }
  }

  lemma TypesInOrder(config: Config, g: Graph<string>, order: seq<string>, t: nat, u: nat)
    requires WellFormed(g) && IsTopologicalOrder(g, order) && g.edges == AllEdges(config) && t < u < |HOOK_TYPES|
    ensures HooksBefore(config, order, HOOK_TYPES[t], HOOK_TYPES[u])
  {
    hide FullChain, AllEdges, HookChain, IsTopologicalOrder;
    forall n, i, j, h, k |
      n in config && HasHookAt(config[n].hooks, HOOK_TYPES[t], i, h) && HasHookAt(config[n].hooks, HOOK_TYPES[u], j, k)
      ensures Precedes(order, n + "." + HOOK_TYPES[t] + "." + h, n + "." + HOOK_TYPES[u] + "." + k)
    {
      var at := HookPlace(n, config[n].hooks, t, i, h);
      var later := HookPlace(n, config[n].hooks, u, j, k);
      BlocksInOrder(n, config[n].hooks, t, u);
      ChainPrecedes(config, g, order, n, at, later);
    }
  }

  /** Every topological order of the whole graph runs dependencies before their dependents, nodes before their
      hooks, and the hooks of a node list by list. */
  lemma OrdersRespectPipeline(config: Config, g: Graph<string>, order: seq<string>)
    requires WellFormed(g) && IsTopologicalOrder(g, order) && g.edges == AllEdges(config)
    ensures RespectsPipeline(config, order)
  {
    hide HooksAfterNode, HooksBefore, IsTopologicalOrder;
    forall n, d | n in config && d in config[n].dependsOn ensures Precedes(order, d, n) {
      assert (d, n) in DependencyEdges(config);
      EdgePrecedes(g, order, d, n);
    }
    NodeThenHooks(config, g, order, 0);
    NodeThenHooks(config, g, order, 1);
    NodeThenHooks(config, g, order, 2);
    TypesInOrder(config, g, order, 0, 1);
    TypesInOrder(config, g, order, 0, 2);
    TypesInOrder(config, g, order, 1, 2);
  }
}
