/** What the parallel-task rewrite means for scheduling: schedules of the rewritten graph, with every group
    expanded to its tasks in any order, are schedules of the original graph. */
module Schedules {
  import opened Graphs
  import opened Dags
  import opened ParallelTasks

  // ----- Topological orders -----

  lemma {:induction false} AcyclicHasOrder(g: Graph<string>) returns (order: seq<string>)
    requires Acyclic(g.edges)
    ensures IsTopologicalOrder(g, order)
    decreases |g.nodes|
  {
    if g.nodes == {} {
      order := [];
    } else {
      var v := AcyclicHasSource(g.edges, g.nodes);
      assert forall u :: u in g.nodes ==> (u, v) !in g.edges;
      var rest := AcyclicHasOrder(Graph(g.nodes - {v}, g.edges));
      order := [v] + rest;
      forall a, b | 0 <= a < |order| && 0 <= b < |order| && (order[a], order[b]) in g.edges ensures a < b {
        if b > 0 && a > 0 {
          assert (rest[a - 1], rest[b - 1]) in g.edges;
        } else {
          assert order[a] in order;
        }
      }
    }
  }

  // ----- Flattened blocks -----

  function Flatten(blocks: seq<seq<string>>): seq<string> {
    if blocks == [] then [] else Flatten(blocks[..|blocks| - 1]) + blocks[|blocks| - 1]
  }

  ghost predicate InBlock(blocks: seq<seq<string>>, k: int, v: string) {
    0 <= k < |blocks| && v in blocks[k]
  }

  ghost predicate DisjointBlocks(blocks: seq<seq<string>>) {
    && (forall k :: 0 <= k < |blocks| ==> NoDuplicates(blocks[k]))
    && (forall j, k, v :: InBlock(blocks, j, v) && InBlock(blocks, k, v) ==> j == k)
  }

  lemma {:induction false} FlattenMembers(blocks: seq<seq<string>>, v: string)
    ensures v in Flatten(blocks) <==> exists k :: InBlock(blocks, k, v)
  {
    if blocks == [] {
    } else {
      var n := |blocks| - 1;
      FlattenMembers(blocks[..n], v);
      if v in Flatten(blocks[..n]) {
        var k :| InBlock(blocks[..n], k, v);
        assert InBlock(blocks, k, v);
      }
      if v in blocks[n] {
        assert InBlock(blocks, n, v);
      }
      if k :| InBlock(blocks, k, v) {
        assert k < n ==> InBlock(blocks[..n], k, v);
      }
    }
  }

  lemma DisjointPrefix(blocks: seq<seq<string>>, last: seq<string>)
    requires DisjointBlocks(blocks + [last])
    ensures DisjointBlocks(blocks) && NoDuplicates(last)
    ensures forall v :: v in Flatten(blocks) ==> v !in last
  {
    var all := blocks + [last];
    var n := |blocks|;
    assert all[n] == last;
    forall k | 0 <= k < n ensures NoDuplicates(blocks[k]) {
      assert all[k] == blocks[k];
    }
    forall j, v ensures InBlock(blocks, j, v) <==> InBlock(all, j, v) && j < n {
    }
    forall v | v in Flatten(blocks) ensures v !in last {
      FlattenMembers(blocks, v);
      var k :| InBlock(blocks, k, v);
      assert InBlock(all, k, v);
      assert InBlock(all, n, v) <==> v in last;
    }
  }

  lemma {:induction false} FlattenDistinct(blocks: seq<seq<string>>)
    requires DisjointBlocks(blocks)
    ensures NoDuplicates(Flatten(blocks))
  {
    if blocks == [] {
    } else {
      var n := |blocks| - 1;
      assert blocks == blocks[..n] + [blocks[n]];
      DisjointPrefix(blocks[..n], blocks[n]);
      FlattenDistinct(blocks[..n]);
      var before, last := Flatten(blocks[..n]), blocks[n];
      forall i, j | 0 <= i < j < |before + last| ensures (before + last)[i] != (before + last)[j] {
        if i < |before| <= j {
          assert before[i] in before && last[j - |before|] in last;
        }
      }
    }
  }

  /** The `a`-th flattened element lies in some block, and blocks of later elements come no earlier. */
  lemma {:induction false} FlattenAt(blocks: seq<seq<string>>, a: nat) returns (k: nat)
    requires DisjointBlocks(blocks) && a < |Flatten(blocks)|
    ensures InBlock(blocks, k, Flatten(blocks)[a])
    ensures |Flatten(blocks[..k])| <= a < |Flatten(blocks[..k + 1])|
  {
    var n := |blocks| - 1;
    var before := Flatten(blocks[..n]);
    assert blocks == blocks[..n] + [blocks[n]];
    DisjointPrefix(blocks[..n], blocks[n]);
    assert blocks[..n + 1] == blocks;
    if a < |before| {
      k := FlattenAt(blocks[..n], a);
      assert blocks[..n][..k] == blocks[..k] && blocks[..n][..k + 1] == blocks[..k + 1];
    } else {
      k := n;
    }
  }

  lemma {:induction false} FlattenGrows(blocks: seq<seq<string>>, j: nat, k: nat)
    requires j <= k <= |blocks|
    ensures |Flatten(blocks[..j])| <= |Flatten(blocks[..k])|
  {
    if j == k {
    } else {
      FlattenGrows(blocks, j, k - 1);
      assert blocks[..k][..k - 1] == blocks[..k - 1];
    }
  }

  /** Members of earlier blocks come first. */
  lemma FlattenOrder(blocks: seq<seq<string>>, a: nat, b: nat, j: nat, k: nat)
    requires DisjointBlocks(blocks) && a < |Flatten(blocks)| && b < |Flatten(blocks)| && j < k
    requires InBlock(blocks, j, Flatten(blocks)[a]) && InBlock(blocks, k, Flatten(blocks)[b])
    ensures a < b
  {
    var j' := FlattenAt(blocks, a);
    var k' := FlattenAt(blocks, b);
    FlattenGrows(blocks, j' + 1, k');
  }

  // ----- Expanding a schedule -----

  /** One block for each scheduled node: the node itself, or a group's stored tasks in some order. */
  ghost predicate IsExpansion(groups: seq<Group>, order: seq<string>, blocks: seq<seq<string>>) {
    |blocks| == |order| && forall k :: 0 <= k < |order| ==> IsBlock(groups, order[k], blocks[k])
  }

  ghost predicate IsBlock(groups: seq<Group>, v: string, block: seq<string>) {
    if v in Names(groups) then multiset(block) == multiset(StoredTasks(groups, v)) else block == [v]
  }

  /** The stored tasks of a name are those of the last group that carries it. */
  lemma {:induction false} StoredTasksOf(groups: seq<Group>, name: string) returns (i: nat)
    requires name in Names(groups)
    ensures i < |groups| && groups[i].name == name && StoredTasks(groups, name) == groups[i].tasks
    ensures forall j :: i < j < |groups| ==> groups[j].name != name
  {
    var n := |groups| - 1;
    if groups[n].name == name {
      i := n;
    } else {
      var m :| 0 <= m < |groups| && groups[m].name == name;
      assert groups[..n][m].name == name;
      i := StoredTasksOf(groups[..n], name);
    }
  }

  lemma BlockMembers(groups: seq<Group>, v: string, block: seq<string>)
    requires SeparateGroups(groups) && IsBlock(groups, v, block)
    ensures NoDuplicates(block)
    ensures forall t :: t in block <==> if v in Names(groups) then t in StoredTasks(groups, v) else t == v
  {
    if v in Names(groups) {
      var stored := StoredTasks(groups, v);
      var i := StoredTasksOf(groups, v);
      assert forall t :: t in block <==> t in multiset(block);
      assert forall t :: t in stored <==> t in multiset(stored);
      SameBagDistinct(stored, block);
    }
  }

  lemma {:induction false} CountOfDistinct(s: seq<string>, x: string)
    requires NoDuplicates(s)
    ensures multiset(s)[x] <= 1
  {
    if s == [] {
    } else {
      var n := |s| - 1;
      assert s == s[..n] + [s[n]];
      CountOfDistinct(s[..n], x);
      if s[n] == x {
        assert x !in s[..n];
      }
    }
  }

  lemma SameBagDistinct(a: seq<string>, b: seq<string>)
    requires NoDuplicates(a) && multiset(a) == multiset(b)
    ensures NoDuplicates(b)
  {
    forall i, j | 0 <= i < j < |b| ensures b[i] != b[j] {
      if b[i] == b[j] {
        assert b == b[..j] + [b[j]] + b[j + 1..];
        assert b[i] in b[..j];
        assert multiset(b)[b[i]] >= 2;
        CountOfDistinct(a, b[i]);
      }
    }
  }

  // ----- The rewrite preserves schedules -----

  /** The rewritten graph is acyclic, and nothing changes between nodes that survive. */
  lemma RewriteIsAcyclic(before: Graph<string>, groups: seq<Group>, now: Graph<string>)
    requires IsRewrite(before, groups, now)
    ensures Acyclic(now.edges) && WellFormed(now)
    ensures forall u, v :: u in before.nodes - Grouped(groups) && v in before.nodes - Grouped(groups)
              ==> ((u, v) in now.edges <==> (u, v) in before.edges)
  {
    var base := AcyclicHasRank(before, 0);
    var top := |before.nodes|;
    var rank: map<string, int> := map v | v in now.nodes ::
      if v in before.nodes - Grouped(groups) then base[v] else top;
    NewNamesMean(before, groups);
    forall u, v | (u, v) in now.edges ensures u in rank && v in rank && rank[u] < rank[v] {
      NowEdge(before, groups, now, u, v);
    }
    RankImpliesAcyclic(now.edges, rank);
    forall u, v | u in before.nodes - Grouped(groups) && v in before.nodes - Grouped(groups)
      ensures (u, v) in now.edges <==> (u, v) in before.edges
    {
      if (u, v) in now.edges {
        NowEdge(before, groups, now, u, v);
      }
    }
  }

  /** Every edge of the rewritten graph starts at a surviving node, and ends at one or at a group. */
  lemma NowEdge(before: Graph<string>, groups: seq<Group>, now: Graph<string>, u: string, v: string)
    requires IsRewrite(before, groups, now) && (u, v) in now.edges
    ensures u in before.nodes - Grouped(groups) && v in now.nodes
    ensures if v in before.nodes - Grouped(groups) then (u, v) in before.edges else v in Names(groups)
  {
    NewNamesMean(before, groups);
    if !((u, v) in before.edges && v !in Grouped(groups)) {
      var i, t :| 0 <= i < |groups| && t in groups[i].tasks && (u, t) in before.edges && groups[i].name == v;
      assert t in Grouped(groups) && v in Names(groups);
    }
    forall t | t in Grouped(groups) ensures t != u {
      assert IsSink(before, t);
    }
  }

  /** The block of `v` holds `t` exactly when `v` stands for `t`. */
  ghost predicate StandsFor(groups: seq<Group>, v: string, t: string) {
    if v in Names(groups) then t in StoredTasks(groups, v) else t == v
  }

  lemma StandsForOne(before: Graph<string>, groups: seq<Group>, now: Graph<string>, v: string, w: string, t: string)
    requires IsRewrite(before, groups, now) && v in now.nodes && w in now.nodes
    requires StandsFor(groups, v, t) && StandsFor(groups, w, t)
    ensures v == w && t in before.nodes
  {
    NewNamesMean(before, groups);
    assert forall i, t :: 0 <= i < |groups| && t in groups[i].tasks ==> t in Grouped(groups);
    if v in Names(groups) {
      var i := StoredTasksOf(groups, v);
      assert IsSink(before, t);
      if w in Names(groups) {
        var j := StoredTasksOf(groups, w);
      }
    } else if w in Names(groups) {
      var j := StoredTasksOf(groups, w);
    }
  }

  lemma EveryNodeStoodFor(before: Graph<string>, groups: seq<Group>, now: Graph<string>, t: string) returns (v: string)
    requires IsRewrite(before, groups, now) && t in before.nodes
    ensures v in now.nodes && StandsFor(groups, v, t)
    ensures if t in Grouped(groups) then v in Names(groups) else v == t
  {
    NewNamesMean(before, groups);
    if t in Grouped(groups) {
      var i :| 0 <= i < |groups| && t in groups[i].tasks;
      v := groups[i].name;
      var j := StoredTasksOf(groups, v);
      assert i == j;
    } else {
      v := t;
    }
  }

  lemma ExpansionBlocks(before: Graph<string>, groups: seq<Group>, now: Graph<string>,
                        order: seq<string>, blocks: seq<seq<string>>)
    requires IsRewrite(before, groups, now) && IsTopologicalOrder(now, order) && IsExpansion(groups, order, blocks)
    ensures DisjointBlocks(blocks)
    ensures forall k, t :: InBlock(blocks, k, t) <==> 0 <= k < |order| && StandsFor(groups, order[k], t)
  {
    forall k | 0 <= k < |order|
      ensures NoDuplicates(blocks[k]) && forall t :: t in blocks[k] <==> StandsFor(groups, order[k], t)
    {
      BlockMembers(groups, order[k], blocks[k]);
    }
    forall j, k, t | InBlock(blocks, j, t) && InBlock(blocks, k, t) ensures j == k {
      StandsForOne(before, groups, now, order[j], order[k], t);
    }
  }

  /** An edge of the original graph is scheduled in order: the block of its source comes first. */
  lemma EdgeAcrossBlocks(before: Graph<string>, groups: seq<Group>, now: Graph<string>, order: seq<string>,
                         j: nat, k: nat, u: string, t: string)
    requires IsRewrite(before, groups, now) && IsTopologicalOrder(now, order)
    requires (u, t) in before.edges
    requires j < |order| && k < |order| && StandsFor(groups, order[j], u) && StandsFor(groups, order[k], t)
    ensures j < k
  {
    var v := EveryNodeStoodFor(before, groups, now, t);
    StandsForOne(before, groups, now, v, order[k], t);
    var w := EveryNodeStoodFor(before, groups, now, u);
    StandsForOne(before, groups, now, w, order[j], u);
    forall x | x in Grouped(groups) ensures x != u {
      assert IsSink(before, x);
    }
    assert order[j] == u;
    if t in Grouped(groups) {
      var i := StoredTasksOf(groups, v);
      assert Inherits(before.edges, groups, u, v);
    }
    assert (order[j], order[k]) in now.edges;
  }

  /** A schedule of the rewritten graph, each group expanded to its tasks in any order, schedules the original. */
  lemma ExpansionIsSchedule(before: Graph<string>, groups: seq<Group>, now: Graph<string>,
                            order: seq<string>, blocks: seq<seq<string>>)
    requires IsRewrite(before, groups, now)
    requires IsTopologicalOrder(now, order) && IsExpansion(groups, order, blocks)
    ensures IsTopologicalOrder(before, Flatten(blocks))
  {
    hide IsRewrite, IsExpansion, StandsFor;
    var flat := Flatten(blocks);
    ExpansionBlocks(before, groups, now, order, blocks);
    FlattenDistinct(blocks);
    forall t ensures t in flat <==> t in before.nodes {
      FlattenMembers(blocks, t);
      if t in before.nodes {
        var v := EveryNodeStoodFor(before, groups, now, t);
        var k :| 0 <= k < |order| && order[k] == v;
        assert InBlock(blocks, k, t);
      }
      if k :| InBlock(blocks, k, t) {
        StandsForOne(before, groups, now, order[k], order[k], t);
      }
    }
    forall a, b | 0 <= a < |flat| && 0 <= b < |flat| && (flat[a], flat[b]) in before.edges ensures a < b {
      var j := FlattenAt(blocks, a);
      var k := FlattenAt(blocks, b);
      EdgeAcrossBlocks(before, groups, now, order, j, k, flat[a], flat[b]);
      FlattenOrder(blocks, a, b, j, k);
    }
  }

  // ----- When schedules are preserved -----

  /** One block for each scheduled node: the node itself, or, if a group was made under its name, the tasks that
      its attributes list, in some order. */
  ghost predicate IsDagExpansion(now: Dag, names: set<string>, order: seq<string>, blocks: seq<seq<string>>) {
    |blocks| == |order| && forall k :: 0 <= k < |order| ==> IsDagBlock(now, names, order[k], blocks[k])
  }

  ghost predicate IsDagBlock(now: Dag, names: set<string>, v: string, block: seq<string>) {
    v in now.attrs && if v in names then multiset(block) == multiset(now.attrs[v].tasks) else block == [v]
  }

  /** The rewritten graph can be scheduled, and every schedule of it, expanded in any way, schedules the original. */
  ghost predicate PreservesSchedules(before: Dag, now: Dag, names: set<string>) {
    && Acyclic(now.edges)
    && forall order, blocks :: IsTopologicalOrder(now.Shape(), order) && IsDagExpansion(now, names, order, blocks) ==>
         IsTopologicalOrder(before.Shape(), Flatten(blocks))
  }

  lemma RewritePreserves(before: Dag, groups: seq<Group>, now: Dag)
    requires IsRewrite(before.Shape(), groups, now.Shape()) && AttributesContract(before.attrs, groups, now.attrs)
    ensures PreservesSchedules(before, now, Names(groups))
  {
    hide IsRewrite, IsTopologicalOrder, IsExpansion, Flatten;
    RewriteIsAcyclic(before.Shape(), groups, now.Shape());
    forall order, blocks
      | IsTopologicalOrder(now.Shape(), order) && IsDagExpansion(now, Names(groups), order, blocks)
      ensures IsTopologicalOrder(before.Shape(), Flatten(blocks))
    {
      ExpansionByAttributes(before, groups, now, order, blocks);
      ExpansionIsSchedule(before.Shape(), groups, now.Shape(), order, blocks);
    }
  }

  lemma ExpansionByAttributes(before: Dag, groups: seq<Group>, now: Dag, order: seq<string>, blocks: seq<seq<string>>)
    requires AttributesContract(before.attrs, groups, now.attrs)
    requires IsDagExpansion(now, Names(groups), order, blocks)
    ensures IsExpansion(groups, order, blocks)
  {
    hide StoredTasks;
    forall k | 0 <= k < |order| ensures IsBlock(groups, order[k], blocks[k]) {
      assert IsDagBlock(now, Names(groups), order[k], blocks[k]);
    }
  }

  // ----- What a clash of names loses -----

  ghost predicate Represents(now: Dag, names: set<string>, v: string, t: string) {
    v in now.attrs && if v in names then t in now.attrs[v].tasks else t == v
  }

  /** No block of any expansion holds `t`. */
  ghost predicate IsLost(now: Dag, names: set<string>, t: string) {
    forall v :: !Represents(now, names, v, t)
  }

  ghost predicate GroupsAreNoTasks(now: Dag, names: set<string>) {
    forall v :: v in names && v in now.attrs ==> now.attrs[v].kind != "task"
  }

  ghost predicate AreTasks(d: Dag, tasks: seq<string>) {
    NoDuplicates(tasks) && forall t :: t in tasks ==> t in d.attrs && d.attrs[t].kind == "task"
  }

  lemma WithGroupAttributes(d: Dag, group: Group)
    requires NoDuplicates(group.tasks)
    ensures var now, name := WithGroup(d, group).attrs, group.name;
            && (forall v :: v != name ==> (v in now <==> v in d.attrs && v !in group.tasks))
            && (forall v :: v in now && v != name ==> now[v] == d.attrs[v])
            && (name !in group.tasks ==> name in now && now[name].kind == "parallel" && now[name].tasks == group.tasks)
            && (name in group.tasks && name in now ==> now[name] == BARE)
  {
    hide MovedAll;
    MovedAllAttributes(WithNode(d, group), group.tasks, group.name);
  }

  /** Making another group keeps the lost lost. */
  lemma LostStaysLost(d: Dag, names: set<string>, group: Group, t: string)
    requires GroupsAreNoTasks(d, names) && AreTasks(d, group.tasks)
    ensures GroupsAreNoTasks(WithGroup(d, group), names + {group.name})
    ensures IsLost(d, names, t) ==> IsLost(WithGroup(d, group), names + {group.name}, t)
  {
    hide WithGroup, NoDuplicates;
    WithGroupAttributes(d, group);
    if IsLost(d, names, t) {
      forall v ensures !Represents(WithGroup(d, group), names + {group.name}, v, t) {
        assert !Represents(d, names, v, t);
        assert !Represents(d, names, t, t);
      }
    }
  }

  /** In a contraction no node of the original graph is represented twice. */
  ghost predicate RepresentsOnce(before: Dag, now: Dag, names: set<string>) {
    forall v, w, t :: Represents(now, names, v, t) && Represents(now, names, w, t) ==> v == w && t in before.attrs
  }

  lemma RewriteRepresentsOnce(before: Dag, groups: seq<Group>, now: Dag)
    requires IsRewrite(before.Shape(), groups, now.Shape()) && AttributesContract(before.attrs, groups, now.attrs)
    ensures RepresentsOnce(before, now, Names(groups))
    ensures forall v :: v in now.attrs && v in Names(groups) ==> now.attrs[v].tasks != []
    ensures GroupsAreNoTasks(now, Names(groups))
  {
    hide IsRewrite, Names;
    forall v, w, t | Represents(now, Names(groups), v, t) && Represents(now, Names(groups), w, t)
      ensures v == w && t in before.attrs
    {
      StandsForOne(before.Shape(), groups, now.Shape(), v, w, t);
    }
    forall v | v in now.attrs && v in Names(groups) ensures now.attrs[v].tasks != [] {
      StoredTasksNotEmpty(before.Shape(), groups, now.Shape(), v);
    }
  }

  lemma StoredTasksNotEmpty(before: Graph<string>, groups: seq<Group>, now: Graph<string>, v: string)
    requires IsRewrite(before, groups, now) && v in Names(groups)
    ensures StoredTasks(groups, v) != []
  {
    var i := StoredTasksOf(groups, v);
    assert |groups[i].tasks| > 1;
  }

  /** A group that takes the name of a node that is there loses a node: another of its tasks if the name is that of
      a task, and otherwise one that the node represented. */
  lemma ClashLoses(before: Dag, d: Dag, names: set<string>, group: Group) returns (t: string)
    requires RepresentsOnce(before, d, names) && GroupsAreNoTasks(d, names) && AreTasks(d, group.tasks)
    requires forall v :: v in d.attrs && v in names ==> d.attrs[v].tasks != []
    requires |group.tasks| > 1 && group.name in d.attrs
    ensures t in before.attrs && IsLost(WithGroup(d, group), names + {group.name}, t)
  {
    var name, tasks := group.name, group.tasks;
    if name in tasks {
      t := if tasks[0] == name then tasks[1] else tasks[0];
      assert t in tasks && t != name;
      assert Represents(d, names, t, t);
    } else {
      t := if name in names then d.attrs[name].tasks[0] else name;
      assert Represents(d, names, name, t);
    }
    hide WithGroup, RepresentsOnce, NoDuplicates;
    WithGroupAttributes(d, group);
    var u := if name in tasks then t else name;
    OnlyOne(before, d, names, u, t);
    forall v ensures !Represents(WithGroup(d, group), names + {name}, v, t) {
      assert v != u ==> !Represents(d, names, v, t);
      assert t in tasks ==> Represents(d, names, t, t);
    }
  }

  lemma OnlyOne(before: Dag, d: Dag, names: set<string>, u: string, t: string)
    requires RepresentsOnce(before, d, names) && Represents(d, names, u, t)
    ensures t in before.attrs && forall v :: v != u ==> !Represents(d, names, v, t)
  {
  }

  lemma TasksOfGeneration(dag: Dag, generations: seq<seq<string>>, d: Dag, k: nat)
    requires IsLayering(dag.Shape(), generations) && k < |generations|
    ensures AreTasks(d, IndependentTasks(d, generations[k]))
  {
    GenerationIsDistinct(dag.Shape(), generations, k);
    IndependentTasksDistinct(d, generations[k]);
  }

  lemma NamesStep(groups: seq<Group>, group: Group)
    ensures Names(groups + [group]) == Names(groups) + {group.name} && groups + [] == groups
  {
    GroupedAppend(groups, group);
  }

  lemma {:induction false} LostToTheEnd(dag: Dag, generations: seq<seq<string>>, groupName: seq<string> -> string,
                                        j: nat, k: nat, t: string)
    requires IsLayering(dag.Shape(), generations) && j <= k <= |generations|
    requires GroupsAreNoTasks(Rewritten(dag, generations[..j], groupName),
                              Names(GroupsMade(dag, generations[..j], groupName)))
    requires IsLost(Rewritten(dag, generations[..j], groupName), Names(GroupsMade(dag, generations[..j], groupName)), t)
    ensures GroupsAreNoTasks(Rewritten(dag, generations[..k], groupName),
                             Names(GroupsMade(dag, generations[..k], groupName)))
    ensures IsLost(Rewritten(dag, generations[..k], groupName), Names(GroupsMade(dag, generations[..k], groupName)), t)
  {
    hide IsLayering, Rewritten, GroupsMade, IndependentTasks, WithGroup, Names, IsLost, GroupsAreNoTasks;
    if j == k {
    } else {
      LostToTheEnd(dag, generations, groupName, j, k - 1, t);
      RewrittenStep(dag, generations, groupName, k - 1);
      var d := Rewritten(dag, generations[..k - 1], groupName);
      var groups := GroupsMade(dag, generations[..k - 1], groupName);
      var tasks := IndependentTasks(d, generations[k - 1]);
      TasksOfGeneration(dag, generations, d, k - 1);
      LostStaysLost(d, Names(groups), Group(groupName(tasks), tasks), t);
      NamesStep(groups, Group(groupName(tasks), tasks));
    }
  }

  lemma {:induction false} FirstClash(dag: Dag, generations: seq<seq<string>>, groupName: seq<string> -> string, k: nat)
    returns (j: nat)
    requires k < |generations| && ClashesAt(dag, generations, groupName, k)
    ensures j < |generations| && ClashesAt(dag, generations, groupName, j)
    ensures forall i :: 0 <= i < j ==> !ClashesAt(dag, generations, groupName, i)
  {
    hide ClashesAt;
    if i: nat :| i < k && ClashesAt(dag, generations, groupName, i) {
      j := FirstClash(dag, generations, groupName, i);
    } else {
      j := k;
    }
  }

  lemma ClashLosesNode(dag: Dag, generations: seq<seq<string>>, groupName: seq<string> -> string) returns (t: string)
    requires WellFormed(dag.Shape()) && IsLayering(dag.Shape(), generations) && !NoClash(dag, generations, groupName)
    ensures t in dag.attrs
    ensures IsLost(Rewritten(dag, generations, groupName), Names(GroupsMade(dag, generations, groupName)), t)
  {
    var k :| 0 <= k < |generations| && ClashesAt(dag, generations, groupName, k);
    k := FirstClash(dag, generations, groupName, k);
    var d, groups := Rewritten(dag, generations[..k], groupName), GroupsMade(dag, generations[..k], groupName);
    var tasks := IndependentTasks(d, generations[k]);
    assert |tasks| > 1 && groupName(tasks) in d.attrs;
    hide IsLayering, Rewritten, GroupsMade, IndependentTasks, WithGroup, Names, IsLost, GroupsAreNoTasks, ClashesAt;
    hide RepresentsOnce, AttributesContract, IsRewrite;
    CleanUpTo(dag, generations, groupName, k);
    RewriteRepresentsOnce(dag, groups, d);
    TasksOfGeneration(dag, generations, d, k);
    var group := Group(groupName(tasks), tasks);
    t := ClashLoses(dag, d, Names(groups), group);
    LostStaysLost(d, Names(groups), group, t);
    RewrittenStep(dag, generations, groupName, k);
    NamesStep(groups, group);
    LostToTheEnd(dag, generations, groupName, k + 1, |generations|, t);
    assert generations[..|generations|] == generations;
  }

  lemma CleanUpTo(dag: Dag, generations: seq<seq<string>>, groupName: seq<string> -> string, k: nat)
    requires WellFormed(dag.Shape()) && IsLayering(dag.Shape(), generations) && k <= |generations|
    requires forall i :: 0 <= i < k ==> !ClashesAt(dag, generations, groupName, i)
    ensures var d, groups := Rewritten(dag, generations[..k], groupName), GroupsMade(dag, generations[..k], groupName);
            IsRewrite(dag.Shape(), groups, d.Shape()) && AttributesContract(dag.attrs, groups, d.attrs)
  {
    hide Rewritten, GroupsMade, ClashesAt, Contracts, AttributesContract, GroupsOfSinks, SeparateGroups, IsLayering;
    NoClashContracts(dag, generations, groupName, k);
    LayeringImpliesAcyclic(dag.Shape(), generations);
  }

  /** The expansion that keeps the stored order of every group. */
  function PlainExpansion(now: Dag, names: set<string>, order: seq<string>): (blocks: seq<seq<string>>)
    requires forall v :: v in order ==> v in now.attrs
    ensures IsDagExpansion(now, names, order, blocks)
    ensures forall k, t :: InBlock(blocks, k, t) ==> 0 <= k < |order| && Represents(now, names, order[k], t)
  {
    seq(|order|, k requires 0 <= k < |order| =>
      if order[k] in names then now.attrs[order[k]].tasks else [order[k]])
  }

  lemma LostIsNotPreserved(before: Dag, now: Dag, names: set<string>, t: string)
    requires t in before.attrs && IsLost(now, names, t)
    ensures !PreservesSchedules(before, now, names)
  {
    if Acyclic(now.edges) {
      var order := AcyclicHasOrder(now.Shape());
      var blocks := PlainExpansion(now, names, order);
      FlattenMembers(blocks, t);
      assert t !in Flatten(blocks);
      assert !IsTopologicalOrder(before.Shape(), Flatten(blocks)) by {
        assert t in before.Shape().nodes;
      }
    }
  }

  /** For every acyclic graph and every way to name groups: the result can be scheduled and all its schedules,
      expanded, are schedules of the original graph exactly when every group gets a name that no node has when the
      group is made.  A node of that name would be overwritten, or removed with the tasks. */
  lemma SchedulesPreservedIff(dag: Dag, generations: seq<seq<string>>, groupName: seq<string> -> string)
    requires WellFormed(dag.Shape()) && IsLayering(dag.Shape(), generations)
    ensures var now, groups := Rewritten(dag, generations, groupName), GroupsMade(dag, generations, groupName);
            NoClash(dag, generations, groupName) <==> PreservesSchedules(dag, now, Names(groups))
  {
    hide NoClash, PreservesSchedules, IsLayering, Rewritten, GroupsMade, IsRewrite, AttributesContract;
    var now, groups := Rewritten(dag, generations, groupName), GroupsMade(dag, generations, groupName);
    if NoClash(dag, generations, groupName) {
      NoClashIsRewrite(dag, generations, groupName);
      RewritePreserves(dag, groups, now);
    } else {
      var t := ClashLosesNode(dag, generations, groupName);
      LostIsNotPreserved(dag, now, Names(groups), t);
    }
  }
}
