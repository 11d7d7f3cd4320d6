/** The parallel-task optimizer: within each topological generation, the tasks that nothing depends on are
    replaced by one group node.  The rewrite is stated as a contraction of the graph, and the schedules of
    the contracted graph are related to those of the original. */
module ParallelTasks {
  import opened Graphs
  import opened Dags

  datatype Group = Group(name: string, tasks: seq<string>)

  // ----- The contraction -----

  function Grouped(groups: seq<Group>): set<string> {
    set i, t | 0 <= i < |groups| && t in groups[i].tasks :: t
  }

  function Names(groups: seq<Group>): set<string> {
    set i | 0 <= i < |groups| :: groups[i].name
  }

  /** The edges a group inherits from its tasks. */
  ghost predicate Inherits(edges: set<(string, string)>, groups: seq<Group>, u: string, name: string) {
    exists i, t :: 0 <= i < |groups| && t in groups[i].tasks && (u, t) in edges && groups[i].name == name
  }

  /** `now` is `before` with the tasks of every group replaced by the group's name. */
  ghost predicate Contracts(before: Graph<string>, groups: seq<Group>, now: Graph<string>) {
    && now.nodes == ContractedNodes(before, groups)
    && forall u, v :: (u, v) in now.edges <==>
        ((u, v) in before.edges && v !in Grouped(groups)) || Inherits(before.edges, groups, u, v)
  }

  function ContractedNodes(g: Graph<string>, groups: seq<Group>): set<string> {
    g.nodes - Grouped(groups) + Names(groups)
  }

  /** The groups consist of nodes that nothing depends on, and each is named after no node there is at the time
      when it is made. */
  ghost predicate GroupsOfSinks(g: Graph<string>, groups: seq<Group>) {
    && (forall t :: t in Grouped(groups) ==> IsSink(g, t))
    && (forall i :: 0 <= i < |groups| ==> groups[i].name !in ContractedNodes(g, groups[..i]))
  }

  ghost predicate DistinctNames(groups: seq<Group>) {
    forall i, j :: 0 <= i < j < |groups| ==> groups[i].name != groups[j].name
  }

  lemma NewNamesMean(g: Graph<string>, groups: seq<Group>)
    requires GroupsOfSinks(g, groups)
    ensures DistinctNames(groups) && forall n :: n in Names(groups) ==> n !in g.nodes - Grouped(groups)
  {
    forall i, j | 0 <= i < j < |groups| ensures groups[i].name != groups[j].name {
      assert groups[..j][i].name in Names(groups[..j]);
    }
    forall n | n in Names(groups) ensures n !in g.nodes - Grouped(groups) {
      var i :| 0 <= i < |groups| && groups[i].name == n;
      if t :| t in Grouped(groups[..i]) && t == n {
        var j :| 0 <= j < i && t in groups[..i][j].tasks;
        assert t in groups[j].tasks;
      }
    }
  }

  /** Every group has at least two tasks, and no task is listed twice, in one group or in two. */
  ghost predicate SeparateGroups(groups: seq<Group>) {
    && (forall i :: 0 <= i < |groups| ==> |groups[i].tasks| > 1 && NoDuplicates(groups[i].tasks))
    && (forall i, j, t :: 0 <= i < j < |groups| && t in groups[i].tasks ==> t !in groups[j].tasks)
  }

  ghost predicate IsSink(g: Graph<string>, v: string) {
    v in g.nodes && forall w :: (v, w) !in g.edges
  }

  // ----- Which tasks are grouped -----

  predicate IsIndependentTask(dag: Dag, v: string) {
    v in dag.attrs && dag.attrs[v].kind == "task" && forall e :: e in dag.edges ==> e.0 != v
  }

  function IndependentTasks(dag: Dag, generation: seq<string>): (tasks: seq<string>)
    ensures forall v :: v in tasks <==> v in generation && IsIndependentTask(dag, v)
    ensures |tasks| <= |generation|
  {
    if generation == [] then []
    else
      var n := |generation| - 1;
      IndependentTasks(dag, generation[..n]) + (if IsIndependentTask(dag, generation[n]) then [generation[n]] else [])
  }

  // ----- The rewrite on snapshots -----

  /** `name` gets an edge from every predecessor of `task`, and `task` is removed. */
  function Moved(d: Dag, task: string, name: string): Dag {
    var predecessors := set e | e in d.edges && e.1 == task :: e.0;
    var attrs := if predecessors == {} || name in d.attrs then d.attrs else d.attrs[name := BARE];
    var edges := d.edges + set u | u in predecessors :: (u, name);
    Dag(attrs - {task}, set e | e in edges && e.0 != task && e.1 != task)
  }

  function MovedAll(d: Dag, tasks: seq<string>, name: string): Dag {
    if tasks == [] then d
    else Moved(MovedAll(d, tasks[..|tasks| - 1], name), tasks[|tasks| - 1], name)
  }

  /** A node that is there already keeps what else it has. */
  function NodeOfGroup(d: Dag, group: Group): Attributes {
    (if group.name in d.attrs then d.attrs[group.name] else BARE).(kind := "parallel", tasks := group.tasks)
  }

  function WithNode(d: Dag, group: Group): Dag {
    Dag(d.attrs[group.name := NodeOfGroup(d, group)], d.edges)
  }

  function WithGroup(d: Dag, group: Group): Dag {
    MovedAll(WithNode(d, group), group.tasks, group.name)
  }

  /** The graph after some generations, whatever the names of the groups. */
  function Rewritten(dag: Dag, generations: seq<seq<string>>, groupName: seq<string> -> string): Dag {
    if generations == [] then dag
    else
      var n := |generations| - 1;
      var d := Rewritten(dag, generations[..n], groupName);
      var tasks := IndependentTasks(d, generations[n]);
      if |tasks| > 1 then WithGroup(d, Group(groupName(tasks), tasks)) else d
  }

  /** The groups made on the way. */
  function GroupsMade(dag: Dag, generations: seq<seq<string>>, groupName: seq<string> -> string): seq<Group> {
    if generations == [] then []
    else
      var n := |generations| - 1;
      var tasks := IndependentTasks(Rewritten(dag, generations[..n], groupName), generations[n]);
      GroupsMade(dag, generations[..n], groupName) + (if |tasks| > 1 then [Group(groupName(tasks), tasks)] else [])
  }

  /** The group made of generation `k`, if there is one, gets the name of a node that is there already. */
  predicate ClashesAt(dag: Dag, generations: seq<seq<string>>, groupName: seq<string> -> string, k: int)
    requires 0 <= k < |generations|
  {
    var d := Rewritten(dag, generations[..k], groupName);
    var tasks := IndependentTasks(d, generations[k]);
    |tasks| > 1 && groupName(tasks) in d.attrs
  }

  predicate NoClash(dag: Dag, generations: seq<seq<string>>, groupName: seq<string> -> string) {
    forall k :: 0 <= k < |generations| ==> !ClashesAt(dag, generations, groupName, k)
  }

  /** The tasks attribute of the node `name`: what the last group of that name stored. */
  function StoredTasks(groups: seq<Group>, name: string): seq<string>
    requires name in Names(groups)
  {
    var n := |groups| - 1;
    if groups[n].name == name then groups[n].tasks
    else
      assert name in Names(groups[..n]) by {
        var i :| 0 <= i < |groups| && groups[i].name == name;
        assert groups[..n][i].name == name;
      }
      StoredTasks(groups[..n], name)
  }

  /** The attributes after contraction: nodes keep theirs, group nodes carry their tasks. */
  ghost predicate AttributesContract(before: map<string, Attributes>, groups: seq<Group>,
                                     now: map<string, Attributes>) {
    && (forall v :: v in before && v !in Grouped(groups) ==> v in now && now[v] == before[v])
    && (forall name :: name in Names(groups) ==>
        name in now && now[name] == Attributes("parallel", map[], "", StoredTasks(groups, name)))
  }

  // ----- One step at a time -----

  lemma GroupedAppend(groups: seq<Group>, group: Group)
    ensures Grouped(groups + [group]) == Grouped(groups) + Elements(group.tasks)
    ensures Names(groups + [group]) == Names(groups) + {group.name}
    ensures forall edges, u, v :: Inherits(edges, groups + [group], u, v)
              <==> Inherits(edges, groups, u, v) || (v == group.name && exists t :: t in group.tasks && (u, t) in edges)
  {
    var longer := groups + [group];
    assert forall i :: 0 <= i < |groups| ==> longer[i] == groups[i];
    assert longer[|groups|] == group;
    forall t ensures t in Grouped(longer) <==> t in Grouped(groups) || t in group.tasks {
      if t in Grouped(groups) {
        var i :| 0 <= i < |groups| && t in groups[i].tasks;
        assert t in longer[i].tasks;
      }
      if t in group.tasks {
        assert t in longer[|groups|].tasks;
      }
    }
    forall n ensures n in Names(longer) <==> n in Names(groups) || n == group.name {
      if n in Names(groups) {
        var i :| 0 <= i < |groups| && groups[i].name == n;
        assert longer[i].name == n;
      }
    }
    forall edges, u, v ensures Inherits(edges, longer, u, v)
              <==> Inherits(edges, groups, u, v) || (v == group.name && exists t :: t in group.tasks && (u, t) in edges)
    {
      InheritsAppend(edges, groups, group, u, v);
    }
  }

  lemma InheritsAppend(edges: set<(string, string)>, groups: seq<Group>, group: Group, u: string, v: string)
    ensures Inherits(edges, groups + [group], u, v)
            <==> Inherits(edges, groups, u, v) || (v == group.name && exists t :: t in group.tasks && (u, t) in edges)
  {
    var longer := groups + [group];
    if Inherits(edges, groups, u, v) {
      var i, t :| 0 <= i < |groups| && t in groups[i].tasks && (u, t) in edges && groups[i].name == v;
      assert t in longer[i].tasks && longer[i].name == v;
    }
    if v == group.name && exists t :: t in group.tasks && (u, t) in edges {
      var t :| t in group.tasks && (u, t) in edges;
      assert t in longer[|groups|].tasks && longer[|groups|].name == v;
    }
    if Inherits(edges, longer, u, v) {
      var i, t :| 0 <= i < |longer| && t in longer[i].tasks && (u, t) in edges && longer[i].name == v;
      if i < |groups| {
        assert t in groups[i].tasks && groups[i].name == v;
      }
    }
  }

  /** Naming a group without moving a task into it yet. */
  lemma ContractsEmptyGroup(before: Graph<string>, groups: seq<Group>, s: Graph<string>, name: string)
    requires Contracts(before, groups, s)
    ensures Contracts(before, groups + [Group(name, [])], Graph(s.nodes + {name}, s.edges))
  {
    GroupedAppend(groups, Group(name, []));
  }

  /** Moving one more sink into the last group: its incoming edges go to the group, then it is removed. */
  lemma ContractsOneTask(before: Graph<string>, groups: seq<Group>, name: string, tasks: seq<string>, task: string,
                         s: Graph<string>, s': Graph<string>)
    requires IsSink(before, task) && task !in Grouped(groups) && task !in tasks
    requires name != task && task !in Names(groups)
    requires Contracts(before, groups + [Group(name, tasks)], s)
    requires s'.nodes == s.nodes - {task}
    requires forall u, v :: (u, v) in s'.edges <==>
              u != task && v != task && ((u, v) in s.edges || (v == name && (u, task) in s.edges))
    ensures Contracts(before, groups + [Group(name, tasks + [task])], s')
  {
    GroupedAppend(groups, Group(name, tasks));
    GroupedAppend(groups, Group(name, tasks + [task]));
    assert forall t :: t in tasks + [task] <==> t in tasks || t == task;
    assert Elements(tasks + [task]) == Elements(tasks) + {task};
    forall i | 0 <= i < |groups| ensures groups[i].name != task {
      assert groups[i].name in Names(groups);
    }
    forall u ensures (u, task) in s.edges <==> (u, task) in before.edges {
    }
    forall v ensures (task, v) !in s.edges {
    }
  }

  // ----- The rewrite in place -----

  /** Gives `name` an edge from every predecessor of `task`, and removes `task`. */
  method MoveIntoGroup(dag: DiGraph, task: string, name: string)
    requires dag.Valid() && task in dag.attrs
    modifies dag
    ensures dag.Valid() && dag.View() == Moved(old(dag.View()), task, name)
  {
    var predecessors := set e | e in dag.edges && e.1 == task :: e.0;
    var todo := predecessors;
    while todo != {}
      invariant todo <= predecessors && dag.Valid()
      invariant dag.edges == old(dag.edges) + set u | u in predecessors - todo :: (u, name)
      invariant dag.attrs ==
                if todo == predecessors || name in old(dag.attrs) then old(dag.attrs) else old(dag.attrs)[name := BARE]
    {
      var pred :| pred in todo;
      assert (pred, task) in old(dag.edges);
      todo := todo - {pred};
      dag.AddEdge(pred, name);
    }
    assert predecessors - {} == predecessors;
    dag.RemoveNode(task);
  }

  /** Replaces `tasks` by the group node `name`. */
  method MakeGroup(dag: DiGraph, name: string, tasks: seq<string>)
    requires dag.Valid() && NoDuplicates(tasks) && forall t :: t in tasks ==> t in dag.attrs
    modifies dag
    ensures dag.Valid() && dag.View() == WithGroup(old(dag.View()), Group(name, tasks))
  {
    hide WellFormed, Moved, NodeOfGroup, NoDuplicates;
    ghost var d := WithNode(dag.View(), Group(name, tasks));
    dag.AddNode(name, NodeOfGroup(Dag(dag.attrs, dag.edges), Group(name, tasks)));
    assert tasks[..0] == [];
    for k := 0 to |tasks|
      invariant dag.Valid() && dag.View() == MovedAll(d, tasks[..k], name)
    {
      assert tasks[..k + 1][..k] == tasks[..k];
      DistinctPrefix(tasks, k);
      MovedAllAttributes(d, tasks[..k], name);
      TaskIsStillThere(d, tasks, k, name);
      MoveIntoGroup(dag, tasks[k], name);
    }
    assert tasks[..|tasks|] == tasks;
  }

  lemma DistinctPrefix(tasks: seq<string>, k: nat)
    requires k < |tasks| && NoDuplicates(tasks)
    ensures NoDuplicates(tasks[..k]) && tasks[k] !in tasks[..k]
  {
  }

  /** What becomes of the nodes: the tasks go, all others keep their attributes, and the group's node, if it is
      itself one of the tasks, can only come back bare. */
  lemma {:induction false} MovedAllAttributes(d: Dag, tasks: seq<string>, name: string)
    requires name in d.attrs && NoDuplicates(tasks)
    ensures var now := MovedAll(d, tasks, name);
            && (forall v :: v != name ==> (v in now.attrs <==> v in d.attrs && v !in tasks))
            && (forall v :: v in now.attrs && v != name ==> now.attrs[v] == d.attrs[v])
            && (name !in tasks ==> name in now.attrs && now.attrs[name] == d.attrs[name])
            && (name in tasks && name in now.attrs ==> now.attrs[name] == BARE)
  {
    if tasks == [] {
    } else {
      var n := |tasks| - 1;
      DistinctPrefix(tasks, n);
      MovedAllAttributes(d, tasks[..n], name);
      assert tasks == tasks[..n] + [tasks[n]];
    }
  }

  lemma TaskIsStillThere(d: Dag, tasks: seq<string>, k: nat, name: string)
    requires k < |tasks| && NoDuplicates(tasks) && name in d.attrs && forall t :: t in tasks ==> t in d.attrs
    ensures tasks[k] in MovedAll(d, tasks[..k], name).attrs
  {
    DistinctPrefix(tasks, k);
    MovedAllAttributes(d, tasks[..k], name);
    assert tasks[k] in tasks;
  }

  // ----- Groups with new names -----

  /** Moving tasks one by one into a group with a new name contracts the graph. */
  lemma {:induction false} MovedAllContracts(before: Graph<string>, groups: seq<Group>, d: Dag, name: string,
                                             tasks: seq<string>, k: nat)
    requires k <= |tasks| && NoDuplicates(tasks) && name in d.attrs && name !in tasks && name !in Names(groups)
    requires Contracts(before, groups + [Group(name, [])], d.Shape())
    requires forall t :: t in tasks ==> IsSink(before, t) && t !in Grouped(groups) && t !in Names(groups)
    ensures Contracts(before, groups + [Group(name, tasks[..k])], MovedAll(d, tasks[..k], name).Shape())
  {
    if k == 0 {
      assert tasks[..0] == [];
    } else {
      hide Contracts, Moved, NoDuplicates;
      var now, s, task := tasks[..k], MovedAll(d, tasks[..k - 1], name), tasks[k - 1];
      MovedAllContracts(before, groups, d, name, tasks, k - 1);
      assert now[..k - 1] == tasks[..k - 1] && now == tasks[..k - 1] + [task];
      DistinctPrefix(tasks, k - 1);
      MovedAllAttributes(d, tasks[..k - 1], name);
      assert now[k - 1] == task && MovedAll(d, now, name) == Moved(s, task, name);
      MovedShape(s, task, name);
      ContractsOneTask(before, groups, name, tasks[..k - 1], task, s.Shape(), MovedAll(d, now, name).Shape());
    }
  }

  lemma MovedShape(d: Dag, task: string, name: string)
    requires name in d.attrs
    ensures var now := Moved(d, task, name);
            && now.attrs.Keys == d.attrs.Keys - {task}
            && forall u, v :: (u, v) in now.edges <==>
                 u != task && v != task && ((u, v) in d.edges || (v == name && (u, task) in d.edges))
  {
    forall u ensures (u, task) in d.edges <==> exists e :: e in d.edges && e.1 == task && e.0 == u {
      assert (u, task).1 == task && (u, task).0 == u;
    }
  }

  lemma StoredTasksAppend(groups: seq<Group>, group: Group, name: string)
    requires name in Names(groups) || name == group.name
    ensures name in Names(groups + [group])
    ensures StoredTasks(groups + [group], name) == if name == group.name then group.tasks else StoredTasks(groups, name)
  {
    GroupedAppend(groups, group);
    assert (groups + [group])[..|groups|] == groups;
  }

  lemma AttributesAppend(before: map<string, Attributes>, groups: seq<Group>, group: Group, d: Dag)
    requires AttributesContract(before, groups, d.attrs) && NoDuplicates(group.tasks)
    requires group.name !in d.attrs && group.name !in group.tasks
    requires forall t :: t in group.tasks ==> t !in Names(groups)
    ensures AttributesContract(before, groups + [group], WithGroup(d, group).attrs)
  {
    var now := WithGroup(d, group).attrs;
    NewNodeAttributes(d, group);
    hide StoredTasks, NoDuplicates, WithGroup, Grouped, Names;
    GroupedAppend(groups, group);
    forall n | n in Names(groups + [group])
      ensures n in now && now[n] == Attributes("parallel", map[], "", StoredTasks(groups + [group], n))
    {
      StoredTasksAppend(groups, group, n);
    }
  }

  lemma NewNodeAttributes(d: Dag, group: Group)
    requires group.name !in d.attrs && group.name !in group.tasks && NoDuplicates(group.tasks)
    ensures var now := WithGroup(d, group).attrs;
            && now.Keys == d.attrs.Keys - Elements(group.tasks) + {group.name}
            && (forall v :: v in now && v != group.name ==> now[v] == d.attrs[v])
            && now[group.name] == Attributes("parallel", map[], "", group.tasks)
  {
    hide MovedAll;
    MovedAllAttributes(WithNode(d, group), group.tasks, group.name);
  }

  datatype Result = Optimized(dag: DiGraph) | Unfeasible

  lemma {:induction false} IndependentTasksAgree(a: Dag, b: Dag, generation: seq<string>)
    requires forall v :: v in generation ==> (IsIndependentTask(a, v) <==> IsIndependentTask(b, v))
    ensures IndependentTasks(a, generation) == IndependentTasks(b, generation)
  {
    if generation == [] {
    } else {
      IndependentTasksAgree(a, b, generation[..|generation| - 1]);
    }
  }

  lemma {:induction false} IndependentTasksDistinct(dag: Dag, generation: seq<string>)
    requires NoDuplicates(generation)
    ensures NoDuplicates(IndependentTasks(dag, generation))
  {
    if generation == [] {
    } else {
      var n := |generation| - 1;
      IndependentTasksDistinct(dag, generation[..n]);
      assert generation[n] !in generation[..n];
    }
  }

  lemma IndependentTaskIsSink(dag: Dag, v: string)
    requires IsIndependentTask(dag, v)
    ensures IsSink(dag.Shape(), v)
  {
    forall w ensures (v, w) !in dag.edges {
      assert (v, w) in dag.edges ==> (v, w).0 != v;
    }
  }

  /** What is known after the first `k` generations. */
  ghost predicate GroupedUpTo(dag: Dag, generations: seq<seq<string>>, k: nat, groups: seq<Group>, now: Dag) {
    && Contracts(dag.Shape(), groups, now.Shape()) && AttributesContract(dag.attrs, groups, now.attrs)
    && GroupsOfSinks(dag.Shape(), groups) && SeparateGroups(groups)
    && (forall t :: t in Grouped(groups) ==> exists j :: j < k && InGeneration(generations, t, j))
  }

  /** Grouping earlier generations does not change which nodes of the next one are independent tasks. */
  lemma NextGenerationUntouched(dag: Dag, generations: seq<seq<string>>, k: nat, groups: seq<Group>, now: Dag,
                                v: string)
    requires IsLayering(dag.Shape(), generations) && InGeneration(generations, v, k)
    requires GroupedUpTo(dag, generations, k, groups, now)
    ensures v in dag.attrs && v !in Grouped(groups) && v in now.attrs && now.attrs[v] == dag.attrs[v]
    ensures IsIndependentTask(now, v) <==> IsIndependentTask(dag, v)
  {
    assert v in dag.Shape().nodes;
    forall w | (v, w) in dag.edges ensures w !in Grouped(groups) {
      assert (v, w) in dag.Shape().edges;
    }
    forall w ensures (v, w) in now.edges <==> (v, w) in dag.edges {
      assert forall i, t :: 0 <= i < |groups| && t in groups[i].tasks ==> t in Grouped(groups);
    }
    forall e ensures e in now.edges && e.0 == v <==> e in dag.edges && e.0 == v {
      assert e == (e.0, e.1);
    }
  }

  lemma GroupsOfSinksAppend(g: Graph<string>, groups: seq<Group>, group: Group)
    requires GroupsOfSinks(g, groups) && group.name !in ContractedNodes(g, groups)
    requires forall t :: t in group.tasks ==> IsSink(g, t)
    ensures GroupsOfSinks(g, groups + [group])
  {
    var longer := groups + [group];
    GroupedAppend(groups, group);
    forall i | 0 <= i < |longer| ensures longer[i].name !in ContractedNodes(g, longer[..i]) {
      assert longer[..i] == groups[..i];
    }
  }

  lemma NothingRewritten(dag: Dag, generations: seq<seq<string>>, groupName: seq<string> -> string)
    ensures Rewritten(dag, generations[..0], groupName) == dag
    ensures GroupsMade(dag, generations[..0], groupName) == GroupsOf(dag, generations[..0], groupName) == []
    ensures GroupedUpTo(dag, generations, 0, [], dag)
  {
  }

  /** The independent tasks of generation `k` are those of the original graph. */
  lemma NextGenerationTasks(dag: Dag, generations: seq<seq<string>>, k: nat, groups: seq<Group>, now: Dag)
    requires IsLayering(dag.Shape(), generations) && k < |generations| && GroupedUpTo(dag, generations, k, groups, now)
    ensures var tasks := IndependentTasks(now, generations[k]);
            && tasks == IndependentTasks(dag, generations[k]) && NoDuplicates(tasks)
            && forall t :: t in tasks ==> t in dag.attrs && IsSink(dag.Shape(), t) && t !in Grouped(groups)
  {
    forall v | v in generations[k]
      ensures v in dag.attrs && v !in Grouped(groups) && (IsIndependentTask(now, v) <==> IsIndependentTask(dag, v))
    {
      assert InGeneration(generations, v, k);
      NextGenerationUntouched(dag, generations, k, groups, now, v);
    }
    IndependentTasksAgree(now, dag, generations[k]);
    IndependentTasksDistinct(dag, generations[k]);
    forall t | t in IndependentTasks(dag, generations[k]) ensures IsSink(dag.Shape(), t) {
      IndependentTaskIsSink(dag, t);
    }
  }

  lemma SeparateAppend(groups: seq<Group>, group: Group)
    requires SeparateGroups(groups) && |group.tasks| > 1 && NoDuplicates(group.tasks)
    requires forall t :: t in group.tasks ==> t !in Grouped(groups)
    ensures SeparateGroups(groups + [group])
  {
    assert forall i, t :: 0 <= i < |groups| && t in groups[i].tasks ==> t in Grouped(groups);
  }

  /** One more group whose name is new. */
  lemma GroupedUpToAppend(dag: Dag, generations: seq<seq<string>>, k: nat, groups: seq<Group>, now: Dag, group: Group)
    requires IsLayering(dag.Shape(), generations) && k < |generations| && GroupedUpTo(dag, generations, k, groups, now)
    requires group.tasks == IndependentTasks(now, generations[k]) && |group.tasks| > 1 && group.name !in now.attrs
    ensures GroupedUpTo(dag, generations, k + 1, groups + [group], WithGroup(now, group))
  {
    NextGenerationTasks(dag, generations, k, groups, now);
    hide IsLayering, WithGroup, IndependentTasks, Contracts, AttributesContract, GroupsOfSinks, SeparateGroups;
    hide Grouped, Names, ContractedNodes, NoDuplicates, IsSink;
    var g := dag.Shape();
    ContractedNodesAre(g, groups, now);
    TasksAreNoGroups(g, groups, now, group.tasks);
    GroupContracts(g, groups, now, group);
    AttributesAppend(dag.attrs, groups, group, now);
    GroupsOfSinksAppend(g, groups, group);
    SeparateAppend(groups, group);
    GroupedInGenerations(generations, k, groups, group);
  }

  lemma TasksAreNoGroups(g: Graph<string>, groups: seq<Group>, now: Dag, tasks: seq<string>)
    requires GroupsOfSinks(g, groups) && now.attrs.Keys == ContractedNodes(g, groups)
    requires forall t :: t in tasks ==> t in g.nodes && t !in Grouped(groups)
    ensures forall t :: t in tasks ==> t !in Names(groups) && t in now.attrs
  {
    NewNamesMean(g, groups);
  }

  lemma GroupContracts(g: Graph<string>, groups: seq<Group>, now: Dag, group: Group)
    requires Contracts(g, groups, now.Shape()) && NoDuplicates(group.tasks) && group.name !in group.tasks
    requires group.name !in Names(groups)
    requires forall t :: t in group.tasks ==> IsSink(g, t) && t !in Grouped(groups) && t !in Names(groups)
    ensures Contracts(g, groups + [group], WithGroup(now, group).Shape())
  {
    hide Contracts, MovedAll, WithNode;
    NewNodeShape(now, group);
    ContractsEmptyGroup(g, groups, now.Shape(), group.name);
    assert group.tasks[..|group.tasks|] == group.tasks;
    MovedAllContracts(g, groups, WithNode(now, group), group.name, group.tasks, |group.tasks|);
  }

  lemma GroupedInGenerations(generations: seq<seq<string>>, k: nat, groups: seq<Group>, group: Group)
    requires k < |generations| && forall t :: t in group.tasks ==> t in generations[k]
    requires forall t :: t in Grouped(groups) ==> exists j :: j < k && InGeneration(generations, t, j)
    ensures forall t :: t in Grouped(groups + [group]) ==> exists j :: j < k + 1 && InGeneration(generations, t, j)
  {
    GroupedAppend(groups, group);
    forall t | t in Grouped(groups + [group]) ensures exists j :: j < k + 1 && InGeneration(generations, t, j) {
      if t in group.tasks {
        assert InGeneration(generations, t, k);
      } else {
        var j :| j < k && InGeneration(generations, t, j);
        assert j < k + 1 && InGeneration(generations, t, j);
      }
    }
  }

  lemma ContractedNodesAre(g: Graph<string>, groups: seq<Group>, now: Dag)
    requires Contracts(g, groups, now.Shape())
    ensures now.attrs.Keys == ContractedNodes(g, groups) && forall n :: n in Names(groups) ==> n in now.attrs
  {
  }

  lemma NewNodeShape(d: Dag, group: Group)
    ensures WithNode(d, group).Shape() == Graph(d.Shape().nodes + {group.name}, d.edges)
    ensures group.name in WithNode(d, group).attrs
    ensures WithGroup(d, group) == MovedAll(WithNode(d, group), group.tasks, group.name)
  {
  }

  /** One generation of the rewrite. */
  lemma RewrittenStep(dag: Dag, generations: seq<seq<string>>, groupName: seq<string> -> string, k: nat)
    requires k < |generations|
    ensures var before, now := generations[..k], generations[..k + 1];
            var d := Rewritten(dag, before, groupName);
            var tasks := IndependentTasks(d, generations[k]);
            var group := Group(groupName(tasks), tasks);
            && Rewritten(dag, now, groupName) == (if |tasks| > 1 then WithGroup(d, group) else d)
            && GroupsMade(dag, now, groupName)
               == GroupsMade(dag, before, groupName) + (if |tasks| > 1 then [group] else [])
  {
    assert generations[..k + 1][..k] == generations[..k];
  }

  lemma NoClashAt(dag: Dag, generations: seq<seq<string>>, groupName: seq<string> -> string, k: nat)
    requires k < |generations| && !ClashesAt(dag, generations, groupName, k)
    ensures var d := Rewritten(dag, generations[..k], groupName);
            var tasks := IndependentTasks(d, generations[k]);
            |tasks| > 1 ==> groupName(tasks) !in d.attrs
  {
  }

  lemma GroupsOfStep(dag: Dag, generations: seq<seq<string>>, groupName: seq<string> -> string, k: nat)
    requires k < |generations|
    ensures var tasks := IndependentTasks(dag, generations[k]);
            GroupsOf(dag, generations[..k + 1], groupName)
            == GroupsOf(dag, generations[..k], groupName)
             + (if |tasks| > 1 then [Group(groupName(tasks), tasks)] else [])
  {
    assert generations[..k + 1][..k] == generations[..k];
  }

  /** While no name clashes, the rewrite contracts the groups of the generations. */
  lemma {:induction false} NoClashContracts(dag: Dag, generations: seq<seq<string>>, groupName: seq<string> -> string,
                                            k: nat)
    requires IsLayering(dag.Shape(), generations) && k <= |generations|
    requires forall i :: 0 <= i < k ==> !ClashesAt(dag, generations, groupName, i)
    ensures var groups := GroupsMade(dag, generations[..k], groupName);
            && GroupedUpTo(dag, generations, k, groups, Rewritten(dag, generations[..k], groupName))
            && groups == GroupsOf(dag, generations[..k], groupName)
  {
    hide IsLayering, GroupedUpTo, WithGroup, Rewritten, GroupsMade, GroupsOf, IndependentTasks, ClashesAt;
    if k == 0 {
      NothingRewritten(dag, generations, groupName);
    } else {
      var j := k - 1;
      NoClashAt(dag, generations, groupName, j);
      NoClashContracts(dag, generations, groupName, j);
      RewrittenStep(dag, generations, groupName, j);
      GroupsOfStep(dag, generations, groupName, j);
      var d, groups := Rewritten(dag, generations[..j], groupName), GroupsMade(dag, generations[..j], groupName);
      var tasks := IndependentTasks(d, generations[j]);
      NextGenerationTasks(dag, generations, j, groups, d);
      if |tasks| > 1 {
        GroupedUpToAppend(dag, generations, j, groups, d, Group(groupName(tasks), tasks));
      } else {
        assert groups + [] == groups;
        GroupedUpToSkip(dag, generations, j, groups, d);
      }
    }
  }

  lemma GroupedUpToSkip(dag: Dag, generations: seq<seq<string>>, k: nat, groups: seq<Group>, now: Dag)
    requires GroupedUpTo(dag, generations, k, groups, now)
    ensures GroupedUpTo(dag, generations, k + 1, groups, now)
  {
    hide Contracts, AttributesContract;
  }

  /** The groups that the original graph determines. */
  function GroupsOf(dag: Dag, generations: seq<seq<string>>, groupName: seq<string> -> string): seq<Group> {
    if generations == [] then []
    else
      var n := |generations| - 1;
      var tasks := IndependentTasks(dag, generations[n]);
      GroupsOf(dag, generations[..n], groupName) + (if |tasks| > 1 then [Group(groupName(tasks), tasks)] else [])
  }

  // ----- Which tasks the groups hold -----

  /** Nodes of one generation that are tasks with nothing depending on them. */
  ghost predicate TaskSinksTogether(dag: Dag, generations: seq<seq<string>>, t: string, u: string) {
    && (exists k :: InGeneration(generations, t, k) && InGeneration(generations, u, k))
    && t in dag.attrs && dag.attrs[t].kind == "task" && (forall w :: (t, w) !in dag.edges)
    && u in dag.attrs && dag.attrs[u].kind == "task" && (forall w :: (u, w) !in dag.edges)
  }

  ghost predicate InOneGroup(groups: seq<Group>, t: string, u: string) {
    exists i :: 0 <= i < |groups| && t in groups[i].tasks && u in groups[i].tasks
  }

  /** The tasks are members of the generation, in its order. */
  ghost predicate InOrderOf(generation: seq<string>, tasks: seq<string>) {
    && (forall t :: t in tasks ==> t in generation)
    && forall a, b, i, j ::
         0 <= a < b < |tasks| && 0 <= i < |generation| && 0 <= j < |generation| ==>
           generation[i] == tasks[a] && generation[j] == tasks[b] ==> i < j
  }

  /** Two different nodes share a group exactly when they are task sinks of one generation, so a task is grouped
      exactly when another is there to be grouped with it; each group keeps the order of its generation. */
  ghost predicate HoldsTaskSinks(dag: Dag, generations: seq<seq<string>>, groups: seq<Group>) {
    && (forall t, u :: t != u ==>
          (InOneGroup(groups, t, u) <==> TaskSinksTogether(dag, generations, t, u)))
    && (forall t :: t in Grouped(groups) ==> HasCompanion(groups, t))
    && (forall i :: 0 <= i < |groups| ==> IsOrdered(generations, groups[i].tasks))
  }

  ghost predicate HasCompanion(groups: seq<Group>, t: string) {
    exists u :: u != t && InOneGroup(groups, t, u)
  }

  ghost predicate IsOrdered(generations: seq<seq<string>>, tasks: seq<string>) {
    exists k :: 0 <= k < |generations| && InOrderOf(generations[k], tasks)
  }

  lemma {:induction false} IndependentTasksInOrder(dag: Dag, generation: seq<string>)
    requires NoDuplicates(generation)
    ensures InOrderOf(generation, IndependentTasks(dag, generation))
  {
    if generation == [] {
    } else {
      var n := |generation| - 1;
      IndependentTasksInOrder(dag, generation[..n]);
      var before, tasks := IndependentTasks(dag, generation[..n]), IndependentTasks(dag, generation);
      forall a, b, i, j | 0 <= a < b < |tasks| && 0 <= i < |generation| && 0 <= j < |generation|
                          && generation[i] == tasks[a] && generation[j] == tasks[b]
        ensures i < j
      {
        assert tasks[a] == before[a] && before[a] in generation[..n];
        assert i < n;
        if b < |before| {
          assert before[b] in generation[..n];
        }
      }
    }
  }

  ghost predicate HasGroup(groups: seq<Group>, tasks: seq<string>) {
    exists i :: 0 <= i < |groups| && groups[i].tasks == tasks
  }

  ghost predicate IsFrom(dag: Dag, generations: seq<seq<string>>, tasks: seq<string>) {
    exists k :: 0 <= k < |generations| && tasks == IndependentTasks(dag, generations[k])
  }

  lemma {:induction false} EveryGroupIsFrom(dag: Dag, generations: seq<seq<string>>,
                                            groupName: seq<string> -> string, i: nat)
    requires i < |GroupsOf(dag, generations, groupName)|
    ensures var tasks := GroupsOf(dag, generations, groupName)[i].tasks; |tasks| > 1 && IsFrom(dag, generations, tasks)
  {
    hide IndependentTasks;
    var n := |generations| - 1;
    var before := GroupsOf(dag, generations[..n], groupName);
    if i < |before| {
      EveryGroupIsFrom(dag, generations[..n], groupName, i);
      var k :| 0 <= k < n && before[i].tasks == IndependentTasks(dag, generations[..n][k]);
      assert generations[..n][k] == generations[k];
    }
  }

  lemma {:induction false} EveryGenerationHasGroup(dag: Dag, generations: seq<seq<string>>,
                                                   groupName: seq<string> -> string, k: nat)
    requires k < |generations| && |IndependentTasks(dag, generations[k])| > 1
    ensures HasGroup(GroupsOf(dag, generations, groupName), IndependentTasks(dag, generations[k]))
  {
    hide IndependentTasks;
    var n := |generations| - 1;
    var before, groups := GroupsOf(dag, generations[..n], groupName), GroupsOf(dag, generations, groupName);
    if k < n {
      assert generations[..n][k] == generations[k];
      EveryGenerationHasGroup(dag, generations[..n], groupName, k);
      var i :| 0 <= i < |before| && before[i].tasks == IndependentTasks(dag, generations[k]);
      assert groups[i] == before[i];
    } else {
      assert groups[|before|].tasks == IndependentTasks(dag, generations[k]);
    }
  }

  lemma IndependentTaskIff(dag: Dag, v: string)
    ensures IsIndependentTask(dag, v) <==>
            v in dag.attrs && dag.attrs[v].kind == "task" && forall w :: (v, w) !in dag.edges
  {
    if v in dag.attrs && dag.attrs[v].kind == "task" && forall w :: (v, w) !in dag.edges {
      forall e | e in dag.edges ensures e.0 != v {
        assert e == (e.0, e.1);
      }
    } else if IsIndependentTask(dag, v) {
      IndependentTaskIsSink(dag, v);
    }
  }

  lemma GroupsHoldTaskSinks(dag: Dag, generations: seq<seq<string>>, groupName: seq<string> -> string)
    requires IsLayering(dag.Shape(), generations)
    ensures HoldsTaskSinks(dag, generations, GroupsOf(dag, generations, groupName))
  {
    hide GroupsOf, IndependentTasks, InOneGroup, TaskSinksTogether, InOrderOf, Grouped, NoDuplicates, IsFrom;
    var groups := GroupsOf(dag, generations, groupName);
    forall i | 0 <= i < |groups|
      ensures |groups[i].tasks| > 1 && IsFrom(dag, generations, groups[i].tasks) && NoDuplicates(groups[i].tasks)
      ensures IsOrdered(generations, groups[i].tasks)
    {
      EveryGroupIsFrom(dag, generations, groupName, i);
      var k := OrderOfFrom(dag, generations, groups[i].tasks);
    }
    forall k | 0 <= k < |generations| && |IndependentTasks(dag, generations[k])| > 1
      ensures HasGroup(groups, IndependentTasks(dag, generations[k]))
    {
      EveryGenerationHasGroup(dag, generations, groupName, k);
    }
    forall t, u | t != u
      ensures InOneGroup(groups, t, u) <==> TaskSinksTogether(dag, generations, t, u)
    {
      TogetherIff(dag, generations, groups, t, u);
    }
    forall t | t in Grouped(groups) ensures HasCompanion(groups, t) {
      var u := Companion(groups, t);
    }
  }

  lemma OrderOfFrom(dag: Dag, generations: seq<seq<string>>, tasks: seq<string>) returns (k: nat)
    requires IsLayering(dag.Shape(), generations) && IsFrom(dag, generations, tasks)
    ensures k < |generations| && InOrderOf(generations[k], tasks) && NoDuplicates(tasks)
  {
    hide IndependentTasks, InOrderOf;
    k :| 0 <= k < |generations| && tasks == IndependentTasks(dag, generations[k]);
    GenerationIsDistinct(dag.Shape(), generations, k);
    IndependentTasksDistinct(dag, generations[k]);
    IndependentTasksInOrder(dag, generations[k]);
  }

  lemma Companion(groups: seq<Group>, t: string) returns (u: string)
    requires t in Grouped(groups)
    requires forall i :: 0 <= i < |groups| ==> |groups[i].tasks| > 1 && NoDuplicates(groups[i].tasks)
    ensures u != t && InOneGroup(groups, t, u)
  {
    var i :| 0 <= i < |groups| && t in groups[i].tasks;
    u := if groups[i].tasks[0] == t then groups[i].tasks[1] else groups[i].tasks[0];
    assert u in groups[i].tasks;
  }

  lemma TogetherIff(dag: Dag, generations: seq<seq<string>>, groups: seq<Group>, t: string, u: string)
    requires t != u
    requires forall k :: 0 <= k < |generations| && |IndependentTasks(dag, generations[k])| > 1 ==>
               HasGroup(groups, IndependentTasks(dag, generations[k]))
    requires forall i :: 0 <= i < |groups| ==> IsFrom(dag, generations, groups[i].tasks)
    ensures InOneGroup(groups, t, u) <==> TaskSinksTogether(dag, generations, t, u)
  {
    hide IndependentTasks, IsFrom, HasGroup;
    if InOneGroup(groups, t, u) {
      var i :| 0 <= i < |groups| && t in groups[i].tasks && u in groups[i].tasks;
      TasksAreTogether(dag, generations, groups[i].tasks, t, u);
    }
    if TaskSinksTogether(dag, generations, t, u) {
      var k :| InGeneration(generations, t, k) && InGeneration(generations, u, k);
      AreAmongTasks(dag, generations[k], t, u);
      HasGroupOfBoth(groups, IndependentTasks(dag, generations[k]), t, u);
    }
  }

  lemma TasksAreTogether(dag: Dag, generations: seq<seq<string>>, tasks: seq<string>, t: string, u: string)
    requires IsFrom(dag, generations, tasks) && t in tasks && u in tasks
    ensures TaskSinksTogether(dag, generations, t, u)
  {
    var k :| 0 <= k < |generations| && tasks == IndependentTasks(dag, generations[k]);
    IndependentTaskIff(dag, t);
    IndependentTaskIff(dag, u);
    assert InGeneration(generations, t, k) && InGeneration(generations, u, k);
  }

  lemma AreAmongTasks(dag: Dag, generation: seq<string>, t: string, u: string)
    requires t in generation && u in generation && t != u && t in dag.attrs && u in dag.attrs
    requires dag.attrs[t].kind == "task" && dag.attrs[u].kind == "task"
    requires forall w :: (t, w) !in dag.edges && (u, w) !in dag.edges
    ensures var tasks := IndependentTasks(dag, generation); t in tasks && u in tasks && |tasks| > 1
  {
    IndependentTaskIff(dag, t);
    IndependentTaskIff(dag, u);
  }

  lemma HasGroupOfBoth(groups: seq<Group>, tasks: seq<string>, t: string, u: string)
    requires HasGroup(groups, tasks) && t in tasks && u in tasks
    ensures InOneGroup(groups, t, u)
  {
  }

  /** The facts about a rewrite whose groups all had new names. */
  ghost predicate IsRewrite(before: Graph<string>, groups: seq<Group>, now: Graph<string>) {
    && WellFormed(before) && Acyclic(before.edges)
    && GroupsOfSinks(before, groups) && SeparateGroups(groups) && Contracts(before, groups, now)
  }

  lemma NoClashIsRewrite(dag: Dag, generations: seq<seq<string>>, groupName: seq<string> -> string)
    requires WellFormed(dag.Shape()) && IsLayering(dag.Shape(), generations) && NoClash(dag, generations, groupName)
    ensures var groups, now := GroupsOf(dag, generations, groupName), Rewritten(dag, generations, groupName);
            && groups == GroupsMade(dag, generations, groupName)
            && IsRewrite(dag.Shape(), groups, now.Shape()) && AttributesContract(dag.attrs, groups, now.attrs)
  {
    hide Contracts, AttributesContract, GroupsOfSinks, SeparateGroups;
    assert generations[..|generations|] == generations;
    NoClashContracts(dag, generations, groupName, |generations|);
    LayeringImpliesAcyclic(dag.Shape(), generations);
  }

  /** The rewrite: fails on a cyclic graph.  Otherwise the result is what the generations determine, and unless
      a group gets the name of a node that is there, that is the contraction of the groups of the generations. */
  method Optimize(dag: DiGraph, groupName: seq<string> -> string)
    returns (result: Result, ghost generations: seq<seq<string>>, ghost groups: seq<Group>)
    requires dag.Valid()
    ensures result.Optimized? <==> Acyclic(dag.edges)
    ensures result.Optimized? ==>
              && IsLayering(dag.View().Shape(), generations) && IsEarliest(dag.View().Shape(), generations)
              && result.dag.Valid()
              && groups == GroupsMade(dag.View(), generations, groupName)
              && result.dag.View() == Rewritten(dag.View(), generations, groupName)
    ensures result.Optimized? && NoClash(dag.View(), generations, groupName) ==>
              && groups == GroupsOf(dag.View(), generations, groupName)
              && HoldsTaskSinks(dag.View(), generations, groups)
              && IsRewrite(dag.View().Shape(), groups, result.dag.View().Shape())
              && AttributesContract(dag.attrs, groups, result.dag.attrs)
  {
    hide AttributesContract, IsRewrite, IsIndependentTask, WithGroup, NoClash, WellFormed, IsLayering, IndependentTasks;
    hide HoldsTaskSinks, IsEarliest;
    var optimized := new DiGraph.Copy(dag);
    groups := [];
    var feasible, gens := TopologicalGenerations(Graph(dag.attrs.Keys, dag.edges));
    generations := gens;
    if !feasible {
      return Unfeasible, generations, groups;
    }
    ghost var before := dag.View();
    assert gens[..0] == [];
    for k := 0 to |gens|
      invariant fresh(optimized) && optimized.Valid()
      invariant groups == GroupsMade(before, gens[..k], groupName)
      invariant optimized.View() == Rewritten(before, gens[..k], groupName)
    {
      var independentTasks := IndependentTasks(Dag(optimized.attrs, optimized.edges), gens[k]);
      GenerationIsDistinct(before.Shape(), gens, k);
      IndependentTasksDistinct(optimized.View(), gens[k]);
      IndependentTasksAreNodes(optimized.View(), gens[k]);
      assert gens[..k + 1][..k] == gens[..k];
      if |independentTasks| > 1 {
        var parentGroup := groupName(independentTasks);
        MakeGroup(optimized, parentGroup, independentTasks);
        groups := groups + [Group(parentGroup, independentTasks)];
      }
    }
    assert gens[..|gens|] == gens;
    if NoClash(before, gens, groupName) {
      NoClashIsRewrite(before, gens, groupName);
      GroupsHoldTaskSinks(before, gens, groupName);
    }
    return Optimized(optimized), generations, groups;
  }

  lemma GenerationIsDistinct(g: Graph<string>, generations: seq<seq<string>>, k: nat)
    requires IsLayering(g, generations) && k < |generations|
    ensures NoDuplicates(generations[k])
  {
  }

  lemma IndependentTasksAreNodes(d: Dag, generation: seq<string>)
    ensures forall t :: t in IndependentTasks(d, generation) ==> t in d.attrs
  {
  }
}
