/** When the hook chains of a pipeline keep its graph acyclic. */
module HookChains {
  import opened Graphs
  import opened Pipeline

  predicate Dotless(s: string) {
    '.' !in s
  }

  /** `b` is `a.T` or starts with `a.T.` for hook type number `t`, written T: some hook identifier below `b` could
      then be one below `a`, or `b` itself could be one. */
  predicate Intrudes(a: string, t: nat, b: string)
    requires t < |HOOK_TYPES|
  {
    a + "." + HOOK_TYPES[t] + "." <= b + "."
  }

  /** No key extends the hook-type prefix of another. */
  predicate KeysApart(keys: set<string>) {
    forall a, b, t :: a in keys && b in keys && 0 <= t < |HOOK_TYPES| ==> !Intrudes(a, t, b)
  }

  predicate NoHookRepeats(config: Config) {
    forall n, t :: n in config && 0 <= t < |HOOK_TYPES| ==> ListsEachOnce(config[n].hooks, t)
  }

  predicate ListsEachOnce(hooks: map<string, seq<string>>, t: nat)
    requires t < |HOOK_TYPES|
  {
    var names := HooksOfType(hooks, HOOK_TYPES[t]);
    forall i, j :: 0 <= i < j < |names| ==> names[i] != names[j]
  }

  // ----- Hook identifiers -----

  lemma HookTypesDotless(t: nat, u: nat)
    requires t < |HOOK_TYPES| && u < |HOOK_TYPES|
    ensures Dotless(HOOK_TYPES[t]) && (HOOK_TYPES[t] == HOOK_TYPES[u] ==> t == u)
  {
    assert HOOK_TYPES[0][1] == 'r' && HOOK_TYPES[1][1] == 'o' && HOOK_TYPES[2][1] == 'o';
    assert HOOK_TYPES[1][5] == 's' && HOOK_TYPES[2][5] == 'f';
  }

  lemma DotSplitsOnce(a: string, b: string, x: string, y: string)
    requires Dotless(a) && Dotless(b) && a + "." + x == b + "." + y
    ensures a == b && x == y
  {
    var s := a + "." + x;
    assert s[|a|] == '.' && s[|b|] == '.';
    assert forall i :: 0 <= i < |a| ==> s[i] == a[i];
    assert forall i :: 0 <= i < |b| ==> s[i] == b[i];
    assert a == s[..|a|] && x == s[|a| + 1..];
    assert b == s[..|b|] && y == s[|b| + 1..];
  }

  /** Below one node, a hook identifier determines its type and its name. */
  lemma SameNodeInjective(n: string, t: nat, u: nat, h: string, k: string)
    requires t < |HOOK_TYPES| && u < |HOOK_TYPES|
    requires HookId(n, HOOK_TYPES[t], h) == HookId(n, HOOK_TYPES[u], k)
    ensures t == u && h == k
  {
    HookTypesDotless(t, u);
    HookTypesDotless(u, t);
    var s := HookId(n, HOOK_TYPES[t], h);
    assert s[|n| + 1..] == HOOK_TYPES[t] + "." + h;
    assert s[|n| + 1..] == HOOK_TYPES[u] + "." + k;
    DotSplitsOnce(HOOK_TYPES[t], HOOK_TYPES[u], h, k);
  }

  /** Two nodes can only share a hook identifier if the longer name extends a hook-type prefix of the shorter. */
  lemma SharedIdIntrudes(n: string, m: string, t: nat, u: nat, h: string, k: string)
    requires t < |HOOK_TYPES| && u < |HOOK_TYPES| && |n| < |m|
    requires HookId(n, HOOK_TYPES[t], h) == HookId(m, HOOK_TYPES[u], k)
    ensures Intrudes(n, t, m)
  {
    var s, hookType := HookId(n, HOOK_TYPES[t], h), HOOK_TYPES[t];
    HookTypesDotless(t, t);
    assert s[|m|] == '.' && m + "." == s[..|m| + 1];
    forall i | |n| < i <= |n| + |hookType| ensures s[i] != '.' {
      assert s[i] == hookType[i - |n| - 1];
    }
    assert n + "." + hookType + "." == s[..|n| + 2 + |hookType|];
  }

  /** Below keys that are apart, a hook identifier determines its node, its type and its name. */
  lemma HookIdInjective(keys: set<string>, n: string, m: string, t: nat, u: nat, h: string, k: string)
    requires KeysApart(keys) && n in keys && m in keys && t < |HOOK_TYPES| && u < |HOOK_TYPES|
    requires HookId(n, HOOK_TYPES[t], h) == HookId(m, HOOK_TYPES[u], k)
    ensures n == m && t == u && h == k
  {
    if |n| < |m| {
      SharedIdIntrudes(n, m, t, u, h, k);
    } else if |m| < |n| {
      SharedIdIntrudes(m, n, u, t, k, h);
    }
    assert n == HookId(n, HOOK_TYPES[t], h)[..|n|] && m == HookId(m, HOOK_TYPES[u], k)[..|m|];
    SameNodeInjective(n, t, u, h, k);
  }

  /** Keys as the schema wants its identifiers are apart. */
  lemma DotlessKeysAreApart(keys: set<string>)
    requires forall n :: n in keys ==> Dotless(n)
    ensures KeysApart(keys)
  {
    forall a, b, t | a in keys && b in keys && 0 <= t < |HOOK_TYPES| ensures !Intrudes(a, t, b) {
      var prefix := a + "." + HOOK_TYPES[t] + ".";
      assert prefix[|a|] == '.' && (|b| > |a| ==> (b + ".")[|a|] == b[|a|]);
    }
  }

  ghost predicate IsHookOf(n: string, x: string, t: nat, h: string)
    requires t < |HOOK_TYPES|
  {
    x == HookId(n, HOOK_TYPES[t], h)
  }

  lemma {:induction false} ChainMember(n: string, hooks: map<string, seq<string>>, k: nat, x: string)
    requires k <= |HOOK_TYPES| && x in HookChain(n, hooks, k)
    ensures exists t: nat, h :: t < k && IsHookOf(n, x, t, h)
  {
    if x in HookChain(n, hooks, k - 1) {
      ChainMember(n, hooks, k - 1, x);
    } else {
      var names := HooksOfType(hooks, HOOK_TYPES[k - 1]);
      var i :| 0 <= i < |names| && HookIds(n, HOOK_TYPES[k - 1], names)[i] == x;
      assert IsHookOf(n, x, k - 1, names[i]);
    }
  }

  lemma HookIsNoKey(keys: set<string>, n: string, hooks: map<string, seq<string>>, x: string)
    requires KeysApart(keys) && n in keys && x in FullChain(n, hooks)
    ensures x !in keys
  {
    ChainMember(n, hooks, |HOOK_TYPES|, x);
    var t: nat, h :| t < |HOOK_TYPES| && IsHookOf(n, x, t, h);
    assert Intrudes(n, t, x);
  }

  lemma ChainsDisjoint(keys: set<string>, n: string, m: string, hooks: map<string, seq<string>>,
                       hooks': map<string, seq<string>>, x: string)
    requires KeysApart(keys) && n in keys && m in keys && x in FullChain(n, hooks) && x in FullChain(m, hooks')
    ensures n == m
  {
    ChainMember(n, hooks, |HOOK_TYPES|, x);
    ChainMember(m, hooks', |HOOK_TYPES|, x);
    var t: nat, h :| t < |HOOK_TYPES| && IsHookOf(n, x, t, h);
    var u: nat, k :| u < |HOOK_TYPES| && IsHookOf(m, x, u, k);
    HookIdInjective(keys, n, m, t, u, h, k);
  }

  /** Hook identifiers repeat in one type's block exactly when the hook names do. */
  lemma BlockRepeats(n: string, hooks: map<string, seq<string>>, t: nat)
    requires t < |HOOK_TYPES|
    ensures NoDuplicates(HookIds(n, HOOK_TYPES[t], HooksOfType(hooks, HOOK_TYPES[t]))) <==> ListsEachOnce(hooks, t)
  {
    var names := HooksOfType(hooks, HOOK_TYPES[t]);
    var ids := HookIds(n, HOOK_TYPES[t], names);
    forall i, j | 0 <= i < j < |names| ensures ids[i] == ids[j] <==> names[i] == names[j] {
      if ids[i] == ids[j] {
        SameNodeInjective(n, t, t, names[i], names[j]);
      }
    }
  }

  /** The blocks of different hook types share no identifier. */
  lemma BlocksDisjoint(n: string, hooks: map<string, seq<string>>, k: nat, x: string)
    requires k < |HOOK_TYPES| && x in HookChain(n, hooks, k)
    ensures x !in HookIds(n, HOOK_TYPES[k], HooksOfType(hooks, HOOK_TYPES[k]))
  {
    ChainMember(n, hooks, k, x);
    var t: nat, h :| t < k && IsHookOf(n, x, t, h);
    var names := HooksOfType(hooks, HOOK_TYPES[k]);
    forall i | 0 <= i < |names| ensures HookIds(n, HOOK_TYPES[k], names)[i] != x {
      if HookIds(n, HOOK_TYPES[k], names)[i] == x {
        SameNodeInjective(n, t, k, h, names[i]);
      }
    }
  }

  lemma {:induction false} ChainRepeats(n: string, hooks: map<string, seq<string>>, k: nat)
    requires k <= |HOOK_TYPES|
    ensures NoDuplicates(HookChain(n, hooks, k)) <==> forall t :: 0 <= t < k ==> ListsEachOnce(hooks, t)
  {
    if k == 0 {
    } else {
      hide HookIds, HookId, Dotless, ListsEachOnce;
      ChainRepeats(n, hooks, k - 1);
      BlockRepeats(n, hooks, k - 1);
      var chain, block := HookChain(n, hooks, k - 1),
          HookIds(n, HOOK_TYPES[k - 1], HooksOfType(hooks, HOOK_TYPES[k - 1]));
      forall x | x in chain ensures x !in block {
        BlocksDisjoint(n, hooks, k - 1, x);
      }
      NoDuplicatesConcat(chain, block);
      assert NoDuplicates(HookChain(n, hooks, k)) <==> NoDuplicates(chain) && ListsEachOnce(hooks, k - 1);
    }
  }

  // ----- Ranks and cycles -----

  lemma HookEdgeOf(config: Config, a: string, b: string) returns (n: string)
    requires (a, b) in HookEdges(config, config.Keys)
    ensures n in config
    ensures (a == n && b in FullChain(n, config[n].hooks)) || FollowsIn(FullChain(n, config[n].hooks), a, b)
  {
    n :| n in config && (a, b) in ChainEdges(n, FullChain(n, config[n].hooks));
    ChainEdgesMeaning(n, FullChain(n, config[n].hooks), a, b);
  }

  ghost predicate Owns(config: Config, n: string, x: string) {
    n in config && x in FullChain(n, config[n].hooks)
  }

  /** A rank for the whole graph: pipeline nodes keep theirs, hooks follow by their place in the chain. */
  ghost function ExtendedRank(config: Config, base: map<string, int>): (rank: map<string, int>)
    requires base.Keys == config.Keys
  {
    map x | x in config.Keys + HookNodes(config, config.Keys) ::
      if x in config then base[x] else HookRank(config, x)
  }

  ghost function HookRank(config: Config, x: string): int {
    if n :| Owns(config, n, x) then |config.Keys| + Position(FullChain(n, config[n].hooks), x) else 0
  }

  lemma HookRankIs(config: Config, n: string, i: nat)
    requires KeysApart(config.Keys) && n in config && i < |FullChain(n, config[n].hooks)|
    requires NoDuplicates(FullChain(n, config[n].hooks))
    ensures var x := FullChain(n, config[n].hooks)[i];
            x !in config && x in HookNodes(config, config.Keys) && HookRank(config, x) == |config.Keys| + i
  {
    var x := FullChain(n, config[n].hooks)[i];
    HookIsNoKey(config.Keys, n, config[n].hooks, x);
    assert Owns(config, n, x);
    forall m | Owns(config, m, x) ensures m == n {
      ChainsDisjoint(config.Keys, n, m, config[n].hooks, config[m].hooks, x);
    }
  }

  lemma DistinctHooksKeepAcyclic(config: Config)
    requires RulesHold(config) && KeysApart(config.Keys) && NoHookRepeats(config) && Acyclic(DependencyEdges(config))
    ensures Acyclic(AllEdges(config))
  {
    var g := Graph(config.Keys, DependencyEdges(config));
    DependenciesWellFormed(config);
    var base := AcyclicHasRank(g, 0);
    var rank := ExtendedRank(config, base);
    forall a, b | (a, b) in AllEdges(config) ensures a in rank && b in rank && rank[a] < rank[b] {
      if (a, b) in DependencyEdges(config) {
        assert rank[a] == base[a] && rank[b] == base[b];
      } else {
        var n := HookEdgeOf(config, a, b);
        var chain := FullChain(n, config[n].hooks);
        FullChainRepeats(n, config[n].hooks);
        if FollowsIn(chain, a, b) {
          var i, j :| 0 <= i && j == i + 1 < |chain| && a == chain[i] && b == chain[j];
          HookRankIs(config, n, i);
          HookRankIs(config, n, j);
        } else {
          var j :| 0 <= j < |chain| && chain[j] == b;
          HookRankIs(config, n, j);
        }
      }
    }
    RankImpliesAcyclic(AllEdges(config), rank);
  }

  lemma DependenciesWellFormed(config: Config)
    requires RulesHold(config)
    ensures WellFormed(Graph(config.Keys, DependencyEdges(config)))
  {
    forall u, v | (u, v) in DependencyEdges(config) ensures u in config && v in config {
      DependenciesExist(config, v);
      assert u in Elements(config[v].dependsOn);
    }
  }

  lemma SubgraphKeepsAcyclic<N(!new)>(small: set<(N, N)>, large: set<(N, N)>)
    requires small <= large && Acyclic(large)
    ensures Acyclic(small)
  {
    forall p ensures !IsCycle(small, p) {
      assert !IsCycle(large, p);
    }
  }

  lemma FullChainRepeats(n: string, hooks: map<string, seq<string>>)
    ensures NoDuplicates(FullChain(n, hooks)) <==> forall t :: 0 <= t < |HOOK_TYPES| ==> ListsEachOnce(hooks, t)
  {
    hide ListsEachOnce, HookChain;
    ChainRepeats(n, hooks, |HOOK_TYPES|);
  }

  lemma ChainStepIsEdge(config: Config, n: string, i: nat)
    requires n in config && i + 1 < |FullChain(n, config[n].hooks)|
    ensures (FullChain(n, config[n].hooks)[i], FullChain(n, config[n].hooks)[i + 1]) in AllEdges(config)
  {
    hide FullChain;
    var chain := FullChain(n, config[n].hooks);
    var j := i + 1;
    assert FollowsIn(chain, chain[i], chain[j]);
    ChainEdgesMeaning(n, chain, chain[i], chain[j]);
    assert (chain[i], chain[j]) in HookEdges(config, config.Keys);
  }

  /** A hook named twice in one list is chained to itself. */
  lemma RepeatedHookClosesCycle(config: Config, n: string, t: nat)
    requires n in config && t < |HOOK_TYPES| && !ListsEachOnce(config[n].hooks, t)
    ensures !Acyclic(AllEdges(config))
  {
    hide FullChain, AllEdges, ListsEachOnce;
    var chain := FullChain(n, config[n].hooks);
    FullChainRepeats(n, config[n].hooks);
    var i, j :| 0 <= i < j < |chain| && chain[i] == chain[j];
    var p := chain[i..j + 1];
    forall k | 0 <= k < |p| - 1 ensures (p[k], p[k + 1]) in AllEdges(config) {
      ChainStepIsEdge(config, n, i + k);
      assert p[k] == chain[i + k] && p[k + 1] == chain[i + k + 1];
    }
    assert IsCycle(AllEdges(config), p);
  }

  /** Whatever the keys, an acyclic whole graph has acyclic dependencies and no list that names a hook twice. */
  lemma AcyclicMeansNoRepeats(config: Config)
    requires Acyclic(AllEdges(config))
    ensures Acyclic(DependencyEdges(config)) && NoHookRepeats(config)
  {
    SubgraphKeepsAcyclic(DependencyEdges(config), AllEdges(config));
    forall n, t | n in config && 0 <= t < |HOOK_TYPES| ensures ListsEachOnce(config[n].hooks, t) {
      if !ListsEachOnce(config[n].hooks, t) {
        RepeatedHookClosesCycle(config, n, t);
      }
    }
  }

  /** The graph is acyclic exactly for the reasons a pipeline's author can see. */
  ghost predicate OnlyVisibleCycles(config: Config) {
    Acyclic(AllEdges(config)) <==> Acyclic(DependencyEdges(config)) && NoHookRepeats(config)
  }

  /** Below keys that are apart, the hook chains keep an accepted pipeline acyclic exactly when no list of a
      node names a hook twice. */
  lemma HooksKeepAcyclicIff(config: Config)
    requires RulesHold(config) && KeysApart(config.Keys)
    ensures Acyclic(AllEdges(config)) <==> Acyclic(DependencyEdges(config)) && NoHookRepeats(config)
  {
    if Acyclic(AllEdges(config)) {
      AcyclicMeansNoRepeats(config);
    } else if Acyclic(DependencyEdges(config)) && NoHookRepeats(config) {
      DistinctHooksKeepAcyclic(config);
    }
  }

  /** The keys for which this holds of every accepted pipeline are exactly those that are apart. */
  lemma OnlyVisibleCyclesIffApart(keys: set<string>)
    ensures (forall config: Config :: config.Keys == keys && RulesHold(config) ==> OnlyVisibleCycles(config)) <==>
              KeysApart(keys)
  {
    if KeysApart(keys) {
      forall config: Config | config.Keys == keys && RulesHold(config) ensures OnlyVisibleCycles(config) {
        HooksKeepAcyclicIff(config);
      }
    } else {
      var a, b, t :| a in keys && b in keys && 0 <= t < |HOOK_TYPES| && Intrudes(a, t, b);
      var config := IntruderClashes(keys, a, t, b);
      assert !OnlyVisibleCycles(config);
    }
  }

  // ----- Pipelines whose keys are not apart -----

  /** `a` with dependencies and hooks, `b` with hooks, the other keys bare. */
  function ClashingConfig(
    keys: set<string>, a: string, deps: seq<string>, hooksOfA: map<string, seq<string>>, b: string,
    hooksOfB: map<string, seq<string>>
  ): Config {
    map n | n in keys ::
      NodeConfig("task", "default", if n == a then deps else [],
                 if n == a then hooksOfA else if n == b then hooksOfB else map[])
  }

  lemma OneBlockChain(n: string, t: nat, names: seq<string>)
    requires t < |HOOK_TYPES|
    ensures FullChain(n, map[HOOK_TYPES[t] := names]) == HookIds(n, HOOK_TYPES[t], names)
  {
    var hooks := map[HOOK_TYPES[t] := names];
    forall u: nat | u < |HOOK_TYPES|
      ensures HooksOfType(hooks, HOOK_TYPES[u]) == if u == t then names else []
    {
      HookTypesDotless(t, u);
    }
    assert HookChain(n, hooks, 1) == if t == 0 then HookIds(n, HOOK_TYPES[t], names) else [];
    assert HookChain(n, hooks, 2) == if t <= 1 then HookIds(n, HOOK_TYPES[t], names) else [];
  }

  lemma OwnHookEdge(config: Config, n: string, h: string)
    requires n in config && h in FullChain(n, config[n].hooks)
    ensures (n, h) in AllEdges(config)
  {
    hide FullChain, ChainEdges;
    ChainEdgesMeaning(n, FullChain(n, config[n].hooks), n, h);
    assert (n, h) in HookEdges(config, config.Keys);
  }

  /** A key that extends another's hook-type prefix admits an acyclic pipeline that repeats no hook and whose
      graph is cyclic all the same. */
  lemma IntruderClashes(keys: set<string>, a: string, t: nat, b: string) returns (config: Config)
    requires a in keys && b in keys && t < |HOOK_TYPES| && Intrudes(a, t, b)
    ensures config.Keys == keys && RulesHold(config)
    ensures Acyclic(DependencyEdges(config)) && NoHookRepeats(config) && !Acyclic(AllEdges(config))
  {
    var prefix := a + "." + HOOK_TYPES[t];
    assert |prefix| < |b + "."|;
    if |b| == |prefix| {
      assert b == (b + ".")[..|b|] == (prefix + ".")[..|b|] == prefix;
      config := SharedHooksClash(keys, a, t, b);
    } else {
      var h := b[|prefix| + 1..];
      assert b[..|prefix| + 1] == (b + ".")[..|prefix| + 1] == prefix + ".";
      assert b == HookId(a, HOOK_TYPES[t], h);
      config := KeyIsHookClash(keys, a, t, b, h);
    }
  }

  /** The key is itself the identifier of a hook of a node that depends on it. */
  lemma KeyIsHookClash(keys: set<string>, a: string, t: nat, b: string, h: string) returns (config: Config)
    requires a in keys && b in keys && t < |HOOK_TYPES| && b == HookId(a, HOOK_TYPES[t], h)
    ensures config.Keys == keys && RulesHold(config)
    ensures Acyclic(DependencyEdges(config)) && NoHookRepeats(config) && !Acyclic(AllEdges(config))
  {
    config := ClashingConfig(keys, a, [b], map[HOOK_TYPES[t] := [h]], b, map[]);
    assert b in config[a].dependsOn;
    assert forall n :: n in config ==> Elements(config[n].dependsOn) <= config.Keys;
    RankImpliesAcyclic(DependencyEdges(config), map[b := 0, a := 1]);
    OneBlockChain(a, t, [h]);
    assert HookIds(a, HOOK_TYPES[t], [h])[0] == b;
    OwnHookEdge(config, a, b);
    TwoCycle(AllEdges(config), a, b);
  }

  lemma SharedIds(a: string, t: nat, b: string, u: string, k: string)
    requires t < |HOOK_TYPES| && b == a + "." + HOOK_TYPES[t]
    ensures HookId(a, HOOK_TYPES[t], u + "." + k) == HookId(b, u, k)
  {
  }

  lemma OppositeOrdersClash(config: Config, a: string, b: string, x: string, y: string)
    requires a in config && FullChain(a, config[a].hooks) == [x, y]
    requires b in config && FullChain(b, config[b].hooks) == [y, x]
    ensures !Acyclic(AllEdges(config))
  {
    hide FullChain, AllEdges, Acyclic;
    ChainStepIsEdge(config, a, 0);
    ChainStepIsEdge(config, b, 0);
    TwoCycle(AllEdges(config), x, y);
  }

  lemma ListsTwo(t: nat, h: string, k: string)
    requires t < |HOOK_TYPES| && h != k
    ensures forall u: nat :: u < |HOOK_TYPES| ==> ListsEachOnce(map[HOOK_TYPES[t] := [h, k]], u)
  {
  }

  lemma ListsNone()
    ensures forall u: nat :: u < |HOOK_TYPES| ==> ListsEachOnce(map[], u)
  {
  }

  /** Two nodes that share two hooks can chain them in opposite orders. */
  lemma SharedHooksClash(keys: set<string>, a: string, t: nat, b: string) returns (config: Config)
    requires a in keys && b in keys && t < |HOOK_TYPES| && b == a + "." + HOOK_TYPES[t]
    ensures config.Keys == keys && RulesHold(config)
    ensures Acyclic(DependencyEdges(config)) && NoHookRepeats(config) && !Acyclic(AllEdges(config))
  {
    hide FullChain, AllEdges, HookId, ListsEachOnce;
    var u, x, y := HOOK_TYPES[0], "x", "y";
    var p, q := u + "." + x, u + "." + y;
    config := ClashingConfig(keys, a, [], map[HOOK_TYPES[t] := [p, q]], b, map[u := [y, x]]);
    RankImpliesAcyclic(DependencyEdges(config), map[]);
    assert p[|p| - 1] != q[|q| - 1] && |p| == |q|;
    ListsTwo(t, p, q);
    ListsTwo(0, y, x);
    ListsNone();
    OneBlockChain(a, t, [p, q]);
    OneBlockChain(b, 0, [y, x]);
    SharedIds(a, t, b, u, x);
    SharedIds(a, t, b, u, y);
    assert HookIds(a, HOOK_TYPES[t], [p, q]) == [HookId(b, u, x), HookId(b, u, y)];
    assert HookIds(b, u, [y, x]) == [HookId(b, u, y), HookId(b, u, x)];
    OppositeOrdersClash(config, a, b, HookId(b, u, x), HookId(b, u, y));
  }

  lemma TwoCycle<N(!new)>(edges: set<(N, N)>, a: N, b: N)
    requires (a, b) in edges && (b, a) in edges
    ensures !Acyclic(edges)
  {
    assert IsCycle(edges, [a, b, a]);
  }
}
