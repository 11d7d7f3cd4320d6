/** The agent registry: registration, the reverse-dependency graph it accumulates, and the depth-first
    search that looks for circular dependencies. */
module Registry {
  import opened Graphs
  import opened Wrappers

  /** What a caller may hand to `register`. */
  datatype Candidate =
    | NotAClass
    | NotAnAgent(name: string)
    | AgentClass(name: string, hasConfigModel: bool, dependencies: map<string, string>)

  datatype PluginSpec = PluginSpec(name: string, version: string)

  datatype Entry = Entry(cls: Candidate, plugin: PluginSpec)

  datatype Error =
    | NonClass
    | InvalidAgentClass
    | AlreadyRegistered(name: string)
    | InvalidConfigModel(name: string)
    | NotRegistered(name: string)
    | StillRequired(dependents: set<string>)
    | CircularDependencies(cycles: seq<seq<string>>)

  /** The registry's two tables: registered types, and for each type the types recorded as depending on it. */
  datatype State = State(entries: map<string, Entry>, dependents: map<string, set<string>>)

  const EMPTY := State(map[], map[])

  // ----- Specification of the operations -----

  /** The recorded graph: an edge from a type to each type recorded as depending on it. */
  function Edges(dependents: map<string, set<string>>): set<(string, string)> {
    set d, a | d in dependents && a in dependents[d] :: (d, a)
  }

  function RegisterError(s: State, c: Candidate, overriding: bool): (r: Result<(), Error>) {
    match c
    case NotAClass => Err(NonClass)
    case NotAnAgent(_) => Err(InvalidAgentClass)
    case AgentClass(name, hasConfigModel, _) =>
      if name in s.entries && !overriding then Err(AlreadyRegistered(name))
      else if !hasConfigModel then Err(InvalidConfigModel(name))
      else Ok(())
  }

  /** `dependents` with `name` added to the dependents of every type in `types`. */
  function WithDependent(dependents: map<string, set<string>>, types: set<string>, name: string)
    : map<string, set<string>>
  {
    map d | d in dependents.Keys + types ::
      (if d in dependents then dependents[d] else {}) + (if d in types then {name} else {})
  }

  function Registered(s: State, c: Candidate, plugin: PluginSpec): State
    requires c.AgentClass?
  {
    State(s.entries[c.name := Entry(c, plugin)], WithDependent(s.dependents, c.dependencies.Values, c.name))
  }

  function UnregisterError(s: State, name: string): Result<(), Error> {
    if name !in s.entries then Err(NotRegistered(name))
    else if name in s.dependents && s.dependents[name] != {} then Err(StillRequired(s.dependents[name]))
    else Ok(())
  }

  // ----- Histories -----

  datatype Operation = Register(c: Candidate, plugin: PluginSpec, overriding: bool) | Unregister(name: string)

  /** One operation; a rejected one leaves the tables alone. */
  function Apply(s: State, op: Operation): State {
    match op
    case Register(c, plugin, overriding) =>
      if RegisterError(s, c, overriding).Ok? then Registered(s, c, plugin) else s
    case Unregister(name) =>
      if UnregisterError(s, name).Ok? then s.(entries := s.entries - {name}) else s
  }

  function Run(ops: seq<Operation>): State {
    if ops == [] then EMPTY else Apply(Run(ops[..|ops| - 1]), ops[|ops| - 1])
  }

  /** Every cycle of the recorded graph passes through a registered type. */
  ghost predicate CyclesAnchored(s: State) {
    forall p :: IsCycle(Edges(s.dependents), p) ==> Anchored(s, p)
  }

  ghost predicate Anchored(s: State, p: seq<string>) {
    exists i :: 0 <= i < |p| && p[i] in s.entries
  }

  lemma WithDependentEdges(dependents: map<string, set<string>>, types: set<string>, name: string)
    ensures forall d, a :: (d, a) in Edges(WithDependent(dependents, types, name))
              <==> (d, a) in Edges(dependents) || (d in types && a == name)
  {
  }

  lemma NoDependents(dependents: map<string, set<string>>, name: string)
    ensures WithDependent(dependents, {}, name) == dependents
  {
    assert forall d :: d in dependents ==> dependents[d] + {} == dependents[d];
  }

  lemma OneMoreDependent(dependents: map<string, set<string>>, types: set<string>, name: string, t: string)
    ensures var now := WithDependent(dependents, types, name);
            WithDependent(dependents, types + {t}, name) == now[t := (if t in now then now[t] else {}) + {name}]
  {
    var now, later := WithDependent(dependents, types, name), WithDependent(dependents, types + {t}, name);
    var expected := now[t := (if t in now then now[t] else {}) + {name}];
    assert later.Keys == expected.Keys;
    forall d | d in later ensures later[d] == expected[d] {
      if d != t {
        assert d in types + {t} <==> d in types;
      }
    }
  }

  /** A registration closes cycles only through the type it registers. */
  lemma RegisterKeepsAnchors(s: State, c: Candidate, plugin: PluginSpec)
    requires CyclesAnchored(s) && c.AgentClass?
    ensures CyclesAnchored(Registered(s, c, plugin))
  {
    var s' := Registered(s, c, plugin);
    WithDependentEdges(s.dependents, c.dependencies.Values, c.name);
    forall p | IsCycle(Edges(s'.dependents), p) ensures Anchored(s', p) {
      if IsCycle(Edges(s.dependents), p) {
        assert Anchored(s, p);
        var i :| 0 <= i < |p| && p[i] in s.entries;
        assert p[i] in s'.entries;
      } else {
        var i :| 0 <= i < |p| - 1 && (p[i], p[i + 1]) !in Edges(s.dependents);
        assert p[i + 1] == c.name;
      }
    }
  }

  /** A type that can be unregistered has no recorded dependent, so it lies on no cycle. */
  lemma UnregisterKeepsAnchors(s: State, name: string)
    requires CyclesAnchored(s) && UnregisterError(s, name).Ok?
    ensures forall p :: IsCycle(Edges(s.dependents), p) ==> name !in p
    ensures CyclesAnchored(s.(entries := s.entries - {name}))
  {
    var s' := s.(entries := s.entries - {name});
    forall p | IsCycle(Edges(s.dependents), p) ensures name !in p && Anchored(s', p) {
      forall i | 0 <= i < |p| ensures p[i] != name {
        var k := if i == |p| - 1 then 0 else i;
        assert (p[k], p[k + 1]) in Edges(s.dependents);
      }
      assert Anchored(s, p);
    }
  }

  /** After any history, starting a search at the registered types misses no cycle. */
  lemma {:induction false} EveryCycleIsAnchored(ops: seq<Operation>)
    ensures CyclesAnchored(Run(ops))
  {
    if ops == [] {
      assert Edges(EMPTY.dependents) == {};
      RankImpliesAcyclic(Edges(EMPTY.dependents), map[]);
    } else {
      var s, op := Run(ops[..|ops| - 1]), ops[|ops| - 1];
      EveryCycleIsAnchored(ops[..|ops| - 1]);
      match op {
        case Register(c, plugin, overriding) =>
          if RegisterError(s, c, overriding).Ok? {
            RegisterKeepsAnchors(s, c, plugin);
          }
        case Unregister(name) =>
          if UnregisterError(s, name).Ok? {
            UnregisterKeepsAnchors(s, name);
          }
      }
    }
  }

  /** The `i`-th operation was an accepted registration of `a` that declared a dependency on `d`. */
  ghost predicate RecordedAt(ops: seq<Operation>, i: nat, d: string, a: string)
    requires i < |ops|
  {
    && ops[i].Register? && RegisterError(Run(ops[..i]), ops[i].c, ops[i].overriding).Ok?
    && ops[i].c.name == a && d in ops[i].c.dependencies.Values
  }

  /** The recorded graph holds exactly the dependencies ever accepted: overriding or unregistering a type
      never withdraws one. */
  lemma {:induction false} EdgesAreEverythingRecorded(ops: seq<Operation>, d: string, a: string)
    ensures (d, a) in Edges(Run(ops).dependents) <==> exists i :: 0 <= i < |ops| && RecordedAt(ops, i, d, a)
  {
    if ops == [] {
    } else {
      var n := |ops| - 1;
      var before := ops[..n];
      EdgesAreEverythingRecorded(before, d, a);
      forall i | 0 <= i < n ensures RecordedAt(ops, i, d, a) <==> RecordedAt(before, i, d, a) {
        assert before[..i] == ops[..i];
      }
      var op := ops[n];
      if op.Register? && RegisterError(Run(before), op.c, op.overriding).Ok? {
        WithDependentEdges(Run(before).dependents, op.c.dependencies.Values, op.c.name);
      }
      if RecordedAt(ops, n, d, a) {
        assert (d, a) in Edges(Run(ops).dependents);
      }
    }
  }

  // ----- Cycle search -----

  /** A closed walk with no repeated node other than its end. */
  ghost predicate IsSimpleCycle(edges: set<(string, string)>, p: seq<string>) {
    IsCycle(edges, p) && NoDuplicates(p[1..])
  }

  /** A cycle that can be reached from one of `roots`. */
  ghost predicate ReachableCycle(edges: set<(string, string)>, roots: set<string>, p: seq<string>) {
    IsCycle(edges, p) && ReachableFrom(edges, roots, p[0])
  }

  ghost predicate ReachableFrom(edges: set<(string, string)>, roots: set<string>, v: string) {
    exists r :: r in roots && Reach(edges, r, v)
  }

  ghost predicate ListedBefore(s: seq<string>, v: string, k: int) {
    exists j :: 0 <= j < k && j < |s| && s[j] == v
  }

  /** Nodes are listed after everything they lead to. */
  ghost predicate ListedInPostorder(edges: set<(string, string)>, finished: seq<string>) {
    forall i, w :: 0 <= i < |finished| && (finished[i], w) in edges ==> ListedBefore(finished, w, i)
  }

  lemma PostorderGrows(edges: set<(string, string)>, finished: seq<string>, v: string)
    requires ListedInPostorder(edges, finished)
    requires forall w :: (v, w) in edges ==> w in finished
    ensures ListedInPostorder(edges, finished + [v])
  {
    var finished' := finished + [v];
    forall i, w | 0 <= i < |finished'| && (finished'[i], w) in edges ensures ListedBefore(finished', w, i) {
      var j :| 0 <= j < i && j < |finished| && finished[j] == w by {
        if i < |finished| {
          assert ListedBefore(finished, w, i);
        } else {
          assert w in finished;
        }
      }
      assert finished'[j] == w;
    }
  }

  /** Nodes listed in postorder lie on no cycle. */
  lemma PostorderExcludesCycles(edges: set<(string, string)>, finished: seq<string>, p: seq<string>)
    requires ListedInPostorder(edges, finished) && NoDuplicates(finished) && IsWalk(edges, p) && p[0] in finished
    ensures !IsCycle(edges, p)
  {
    var below := set e | e in edges && e.0 in finished;
    var rank: map<string, int> := map v | v in finished :: -(Position(finished, v) as int);
    forall u, w | (u, w) in below ensures u in rank && w in rank && rank[u] < rank[w] {
      assert (finished[Position(finished, u)], w) in edges;
      assert ListedBefore(finished, w, Position(finished, u));
    }
    RankImpliesAcyclic(below, rank);
    var closed := Elements(finished);
    forall u, w | (u, w) in edges && u in closed ensures w in closed {
      assert (u, w) in below;
    }
    forall k | 0 <= k < |p| - 1 ensures (p[k], p[k + 1]) in below {
      WalkStaysInside(edges, closed, p, k);
    }
    assert !IsCycle(below, p);
  }

  /** The last edges of the reported lists. */
  ghost function ClosingEdges(cycles: seq<seq<string>>): set<(string, string)> {
    set i | 0 <= i < |cycles| && |cycles[i]| >= 2 :: (cycles[i][|cycles[i]| - 2], cycles[i][|cycles[i]| - 1])
  }

  /** The walk uses the last edge of one of the lists. */
  ghost predicate UsesClosingEdge(cycles: seq<seq<string>>, p: seq<string>) {
    exists c, k :: c in cycles && |c| >= 2 && 0 <= k < |p| - 1 && p[k] == c[|c| - 2] && p[k + 1] == c[|c| - 1]
  }

  lemma ClosingEdgesGrow(cycles: seq<seq<string>>, c: seq<string>)
    requires |c| >= 2
    ensures ClosingEdges(cycles + [c]) == ClosingEdges(cycles) + {(c[|c| - 2], c[|c| - 1])}
  {
    var longer := cycles + [c];
    assert forall i :: 0 <= i < |cycles| ==> longer[i] == cycles[i];
    assert longer[|cycles|] == c;
  }

  lemma PrefixClosingEdges(cycles: seq<seq<string>>, cycles': seq<seq<string>>)
    requires cycles <= cycles'
    ensures ClosingEdges(cycles) <= ClosingEdges(cycles')
  {
    assert forall i :: 0 <= i < |cycles| ==> cycles'[i] == cycles[i];
  }

  lemma FewerEdges(edges: set<(string, string)>, edges': set<(string, string)>, finished: seq<string>)
    requires ListedInPostorder(edges, finished) && edges' <= edges
    ensures ListedInPostorder(edges', finished)
  {
  }

  /** A snapshot of a search in progress; `finished` lists the nodes whose call has returned. */
  datatype Search = Search(visited: set<string>, stack: seq<string>, cycles: seq<seq<string>>, finished: seq<string>)

  ghost predicate SearchInvariant(edges: set<(string, string)>, roots: set<string>, s: Search) {
    && (|s.stack| > 0 ==> IsWalk(edges, s.stack))
    && NoDuplicates(s.stack) && NoDuplicates(s.finished)
    && (forall v :: v in s.visited <==> v in s.stack || v in s.finished)
    && (forall v :: v in s.stack ==> v !in s.finished)
    && (forall v {:trigger ReachableFrom(edges, roots, v)} :: v in s.visited ==> ReachableFrom(edges, roots, v))
    && (forall i :: 0 <= i < |s.cycles| ==>
        IsSimpleCycle(edges, s.cycles[i]) && ReachableFrom(edges, roots, s.cycles[i][0]))
    && (forall e :: e in ClosingEdges(s.cycles) ==> e.1 in s.visited)
    && ListedInPostorder(edges - ClosingEdges(s.cycles), s.finished)
  }

  /** What a call on `v` that did not return at once has done. */
  ghost predicate SearchGrows(s0: Search, s: Search) {
    s.stack == s0.stack && s0.visited <= s.visited && s0.cycles <= s.cycles && s0.finished <= s.finished
  }

  lemma PushKeepsInvariant(edges: set<(string, string)>, roots: set<string>, s: Search, v: string)
    requires SearchInvariant(edges, roots, s) && v !in s.visited
    requires if s.stack == [] then v in roots else (s.stack[|s.stack| - 1], v) in edges
    ensures SearchInvariant(edges, roots, s.(visited := s.visited + {v}, stack := s.stack + [v]))
  {
    assert ReachableFrom(edges, roots, v) by {
      if s.stack == [] {
        ReachRefl(edges, v);
      } else {
        var u := s.stack[|s.stack| - 1];
        assert ReachableFrom(edges, roots, u);
        var r :| r in roots && Reach(edges, r, u);
        ReachEdge(edges, u, v);
        ReachTrans(edges, r, u, v);
      }
    }
  }

  /** An edge back into the stack closes a simple cycle. */
  lemma BackEdgeKeepsInvariant(edges: set<(string, string)>, roots: set<string>, s: Search, w: string)
    requires SearchInvariant(edges, roots, s) && w in s.stack && (s.stack[|s.stack| - 1], w) in edges
    ensures var cycles := s.cycles + [s.stack[Position(s.stack, w)..] + [w]];
            && SearchInvariant(edges, roots, s.(cycles := cycles))
            && ClosingEdges(cycles) == ClosingEdges(s.cycles) + {(s.stack[|s.stack| - 1], w)}
  {
    var c := s.stack[Position(s.stack, w)..] + [w];
    SliceIsSimpleCycle(edges, s.stack, w);
    hide ClosingEdges, IsSimpleCycle, Position, NoDuplicates, IsWalk, ListedInPostorder;
    ClosingEdgesGrow(s.cycles, c);
    FewerEdges(edges - ClosingEdges(s.cycles), edges - ClosingEdges(s.cycles + [c]), s.finished);
    assert ReachableFrom(edges, roots, w);
    assert forall i :: 0 <= i < |s.cycles| ==> (s.cycles + [c])[i] == s.cycles[i];
  }

  lemma SliceIsSimpleCycle(edges: set<(string, string)>, stack: seq<string>, w: string)
    requires NoDuplicates(stack) && w in stack && IsWalk(edges, stack) && (stack[|stack| - 1], w) in edges
    ensures var c := stack[Position(stack, w)..] + [w];
            IsSimpleCycle(edges, c) && |c| >= 2 && c[0] == w && c[|c| - 2] == stack[|stack| - 1] && c[|c| - 1] == w
  {
    SliceIsCycle(edges, stack, Position(stack, w));
  }

  lemma SliceIsCycle(edges: set<(string, string)>, stack: seq<string>, k: nat)
    requires NoDuplicates(stack) && k < |stack| && IsWalk(edges, stack) && (stack[|stack| - 1], stack[k]) in edges
    ensures var c := stack[k..] + [stack[k]];
            IsSimpleCycle(edges, c) && |c| >= 2 && c[0] == stack[k] && c[|c| - 2] == stack[|stack| - 1]
  {
    var n, c := |stack| - k, stack[k..] + [stack[k]];
    assert |c| == n + 1 && c[n] == stack[k];
    assert forall i :: 0 <= i < n ==> c[i] == stack[k + i];
    forall i | 0 <= i < n ensures (c[i], c[i + 1]) in edges {
      if i < n - 1 {
        assert (stack[k + i], stack[k + i + 1]) in edges;
      }
    }
    forall i, j | 0 <= i < j < n ensures c[1..][i] != c[1..][j] {
      assert c[1..][i] == stack[k + i + 1];
      assert c[1..][j] == if j < n - 1 then stack[k + j + 1] else stack[k];
    }
  }

  lemma PopKeepsInvariant(edges: set<(string, string)>, roots: set<string>, s: Search)
    requires SearchInvariant(edges, roots, s) && s.stack != []
    requires forall w :: (s.stack[|s.stack| - 1], w) in edges - ClosingEdges(s.cycles) ==> w in s.finished
    ensures SearchInvariant(edges, roots,
              s.(stack := s.stack[..|s.stack| - 1], finished := s.finished + [s.stack[|s.stack| - 1]]))
  {
    var v := s.stack[|s.stack| - 1];
    var rest := s.stack[..|s.stack| - 1];
    assert s.stack == rest + [v];
    PostorderGrows(edges - ClosingEdges(s.cycles), s.finished, v);
    assert forall u :: u in s.finished + [v] <==> u in s.finished || u == v;
    assert forall u :: u in s.stack <==> u in rest || u == v;
    assert v !in rest;
  }

  class DependencySearch {
    const dependents: map<string, set<string>>
    ghost const roots: set<string>
    var visited: set<string>
    var stack: seq<string>
    var cycles: seq<seq<string>>
    ghost var finished: seq<string>

    constructor (dependents: map<string, set<string>>, ghost roots: set<string>)
      ensures this.dependents == dependents && this.roots == roots
      ensures Valid() && View() == Search({}, [], [], [])
    {
      this.dependents, this.roots := dependents, roots;
      visited, stack, cycles, finished := {}, [], [], [];
    }

    ghost function View(): Search
      reads this
    {
      Search(visited, stack, cycles, finished)
    }

    ghost predicate Valid()
      reads this
    {
      SearchInvariant(Edges(dependents), roots, View())
    }

    /** Every type the search can meet. */
    ghost function Universe(): set<string> {
      roots + set e | e in Edges(dependents) :: e.1
    }

    /** Visits `node` unless it has been visited; the stack is always the path to the current call. */
    method Dfs(node: string)
      requires Valid()
      requires if stack == [] then node in roots
               else node !in visited && (stack[|stack| - 1], node) in Edges(dependents)
      modifies this
      ensures Valid() && SearchGrows(old(View()), View()) && node in visited
      decreases Universe() - visited
    {
      hide SearchInvariant, Edges, ClosingEdges;
      if node in visited {
        return;
      }
      PushKeepsInvariant(Edges(dependents), roots, View(), node);
      visited := visited + {node};
      stack := stack + [node];
      var todo := if node in dependents then dependents[node] else {};
      assert forall w :: w in todo <==> (node, w) in Edges(dependents) by {
        EdgesOf(dependents, node, todo);
      }
      assert node in Universe() by {
        InUniverse(dependents, node);
      }
      while todo != {}
        invariant Valid() && stack == old(stack) + [node]
        invariant old(visited) + {node} <= visited && old(cycles) <= cycles && old(finished) <= finished
        invariant forall w :: w in todo ==> (node, w) in Edges(dependents)
        invariant forall w :: (node, w) in Edges(dependents) - ClosingEdges(cycles) && w !in todo ==> w in finished
      {
        var dependent :| dependent in todo;
        todo := todo - {dependent};
        ghost var before := cycles;
        if dependent in stack {
          BackEdgeKeepsInvariant(Edges(dependents), roots, View(), dependent);
          cycles := cycles + [stack[Position(stack, dependent)..] + [dependent]];
        } else if dependent !in visited {
          Dfs(dependent);
        }
        PrefixClosingEdges(before, cycles);
        OffStackIsFinished(Edges(dependents), roots, View(), dependent);
      }
      PopKeepsInvariant(Edges(dependents), roots, View());
      finished := finished + [node];
      stack := stack[..|stack| - 1];
      assert stack == old(stack);
    }
  }

  lemma EdgesOf(dependents: map<string, set<string>>, node: string, todo: set<string>)
    requires todo == if node in dependents then dependents[node] else {}
    ensures forall w :: w in todo <==> (node, w) in Edges(dependents)
  {
  }

  lemma InUniverse(dependents: map<string, set<string>>, node: string)
    ensures forall d :: (d, node) in Edges(dependents) ==> node in set e | e in Edges(dependents) :: e.1
  {
    forall d | (d, node) in Edges(dependents) ensures node in set e | e in Edges(dependents) :: e.1 {
      assert (d, node).1 == node;
    }
  }

  lemma OffStackIsFinished(edges: set<(string, string)>, roots: set<string>, s: Search, v: string)
    requires SearchInvariant(edges, roots, s) && v in s.visited
    ensures v in s.stack || v in s.finished
  {
  }

  lemma VisitedIsClosed(edges: set<(string, string)>, roots: set<string>, s: Search)
    requires SearchInvariant(edges, roots, s) && s.stack == []
    ensures ClosedUnder(edges, s.visited)
  {
    var others := edges - ClosingEdges(s.cycles);
    forall u, w | (u, w) in edges && u in s.visited ensures w in s.visited {
      if (u, w) in others {
        assert (s.finished[Position(s.finished, u)], w) in others;
        assert ListedBefore(s.finished, w, Position(s.finished, u));
      } else {
        assert (u, w) in ClosingEdges(s.cycles) && (u, w).1 == w;
      }
    }
  }

  lemma ClosingEdgeIsUsed(cycles: seq<seq<string>>, p: seq<string>, k: nat)
    requires k + 1 < |p| && (p[k], p[k + 1]) in ClosingEdges(cycles)
    ensures UsesClosingEdge(cycles, p)
  {
    var i :| 0 <= i < |cycles| && |cycles[i]| >= 2
      && (cycles[i][|cycles[i]| - 2], cycles[i][|cycles[i]| - 1]) == (p[k], p[k + 1]);
    assert cycles[i] in cycles;
  }

  lemma CycleWithoutClosingEdge(edges: set<(string, string)>, cycles: seq<seq<string>>, p: seq<string>)
    requires IsCycle(edges, p) && !UsesClosingEdge(cycles, p)
    ensures IsCycle(edges - ClosingEdges(cycles), p)
  {
    forall k | 0 <= k < |p| - 1 ensures (p[k], p[k + 1]) !in ClosingEdges(cycles) {
      if (p[k], p[k + 1]) in ClosingEdges(cycles) {
        ClosingEdgeIsUsed(cycles, p, k);
      }
    }
  }

  /** After a finished search every cycle within reach of its roots uses the last edge of a reported list. */
  lemma EveryCycleIsReported(edges: set<(string, string)>, roots: set<string>, s: Search, p: seq<string>)
    requires SearchInvariant(edges, roots, s) && s.stack == [] && roots <= s.visited && ReachableCycle(edges, roots, p)
    ensures UsesClosingEdge(s.cycles, p)
  {
    VisitedIsClosed(edges, roots, s);
    var r :| r in roots && Reach(edges, r, p[0]);
    hide UsesClosingEdge, ClosingEdges, Reach, ClosedUnder, IsCycle;
    ReachStaysInside(edges, s.visited, r, p[0]);
    if !UsesClosingEdge(s.cycles, p) {
      CycleWithoutClosingEdge(edges, s.cycles, p);
      CycleIsWalk(edges - ClosingEdges(s.cycles), p);
      PostorderExcludesCycles(edges - ClosingEdges(s.cycles), s.finished, p);
    }
  }

  lemma CycleIsWalk(edges: set<(string, string)>, p: seq<string>)
    requires IsCycle(edges, p)
    ensures IsWalk(edges, p)
  {
  }

  /** A finished search that reported nothing leaves no cycle within reach of its roots. */
  lemma NothingReportedNothingThere(edges: set<(string, string)>, roots: set<string>, s: Search)
    requires SearchInvariant(edges, roots, s) && s.stack == [] && s.cycles == [] && roots <= s.visited
    ensures forall p :: !ReachableCycle(edges, roots, p)
  {
    hide SearchInvariant;
    forall p ensures !ReachableCycle(edges, roots, p) {
      if ReachableCycle(edges, roots, p) {
        EveryCycleIsReported(edges, roots, s, p);
      }
    }
  }

  lemma {:induction false} ReportedAreCycles(edges: set<(string, string)>, roots: set<string>, s: Search)
    requires SearchInvariant(edges, roots, s)
    ensures forall c :: c in s.cycles ==> IsSimpleCycle(edges, c) && ReachableCycle(edges, roots, c)
  {
    forall c | c in s.cycles ensures IsSimpleCycle(edges, c) && ReachableCycle(edges, roots, c) {
      var i :| 0 <= i < |s.cycles| && s.cycles[i] == c;
    }
  }

  /** In a registry whose cycles are anchored, every cycle can be turned to start within reach of a
      registered type. */
  lemma AnchoredCycleIsReachable(s: State, p: seq<string>)
    requires CyclesAnchored(s) && IsCycle(Edges(s.dependents), p)
    ensures ReachableCycle(Edges(s.dependents), s.entries.Keys, p)
  {
    var edges := Edges(s.dependents);
    assert Anchored(s, p);
    var i :| 0 <= i < |p| && p[i] in s.entries;
    assert WalkBetween(edges, p[i..], p[i], p[0]);
    assert Reach(edges, p[i], p[0]);
  }

  class AgentRegistry {
    var registry: map<string, Entry>
    var reverseDependencies: map<string, set<string>>

    constructor ()
      ensures View() == EMPTY && Valid()
    {
      registry, reverseDependencies := map[], map[];
      new;
      EveryCycleIsAnchored([]);
    }

    ghost function View(): State
      reads this
    {
      State(registry, reverseDependencies)
    }

    ghost predicate Valid()
      reads this
    {
      CyclesAnchored(View())
    }

    method Register(candidate: Candidate, plugin: PluginSpec, overriding: bool) returns (result: Result<(), Error>)
      requires Valid()
      modifies this
      ensures Valid() && result == RegisterError(old(View()), candidate, overriding)
      ensures View() == Apply(old(View()), Operation.Register(candidate, plugin, overriding))
      ensures result.Ok? <==>
                candidate.AgentClass? && candidate.hasConfigModel && (candidate.name in old(registry) ==> overriding)
      ensures result.Ok? ==> registry == old(registry)[candidate.name := Entry(candidate, plugin)]
      ensures result.Err? ==> View() == old(View()) && match result.error
                case AlreadyRegistered(n) =>
                  candidate.AgentClass? && candidate.name == n && n in old(registry) && !overriding
                case InvalidConfigModel(n) => candidate.AgentClass? && candidate.name == n && !candidate.hasConfigModel
                case InvalidAgentClass => candidate.NotAnAgent?
                case NonClass => candidate.NotAClass?
                case _ => false
    {
      match candidate {
        case NotAClass => return Err(NonClass);
        case NotAnAgent(_) => return Err(InvalidAgentClass);
        case AgentClass(name, hasConfigModel, dependencies) =>
          if name in registry && !overriding {
            return Err(AlreadyRegistered(name));
          }
          if !hasConfigModel {
            return Err(InvalidConfigModel(name));
          }
          RegisterKeepsAnchors(View(), candidate, plugin);
          registry := registry[name := Entry(candidate, plugin)];
          UpdateDependencyGraph(name, dependencies);
          return Ok(());
      }
    }

    method UpdateDependencyGraph(name: string, dependencies: map<string, string>)
      modifies this`reverseDependencies
      ensures reverseDependencies == WithDependent(old(reverseDependencies), dependencies.Values, name)
    {
      hide WithDependent;
      var todo := dependencies.Keys;
      ghost var added: set<string> := {};
      NoDependents(reverseDependencies, name);
      while todo != {}
        invariant todo <= dependencies.Keys
        invariant forall t :: t in added <==> exists k :: k in dependencies && k !in todo && dependencies[k] == t
        invariant reverseDependencies == WithDependent(old(reverseDependencies), added, name)
      {
        var k :| k in todo;
        var depType := dependencies[k];
        todo := todo - {k};
        OneMoreDependent(old(reverseDependencies), added, name, depType);
        var known := if depType in reverseDependencies then reverseDependencies[depType] else {};
        reverseDependencies := reverseDependencies[depType := known + {name}];
        added := added + {depType};
      }
      assert added == dependencies.Values;
    }

    method Unregister(name: string) returns (result: Result<(), Error>)
      requires Valid()
      modifies this
      ensures Valid() && result == UnregisterError(old(View()), name)
      ensures View() == Apply(old(View()), Operation.Unregister(name))
      ensures result.Ok? <==>
                name in old(registry) && (name in reverseDependencies ==> reverseDependencies[name] == {})
      ensures registry == (if result.Ok? then old(registry) - {name} else old(registry))
      ensures reverseDependencies == old(reverseDependencies)
    {
      if name !in registry {
        return Err(NotRegistered(name));
      }
      if name in reverseDependencies {
        var dependents := reverseDependencies[name];
        if dependents != {} {
          return Err(StillRequired(dependents));
        }
      }
      UnregisterKeepsAnchors(View(), name);
      registry := registry - {name};
      return Ok(());
    }

    /** Searches from every registered type.  Every list returned is a simple cycle of the recorded graph, every
        cycle of that graph uses the last edge of some list, and so none is returned exactly when it is acyclic. */
    method DetectCircularDependencies() returns (cycles: seq<seq<string>>)
      requires Valid()
      ensures forall c :: c in cycles ==> IsSimpleCycle(Edges(reverseDependencies), c)
      ensures cycles == [] <==> Acyclic(Edges(reverseDependencies))
      ensures forall p :: IsCycle(Edges(reverseDependencies), p) ==> UsesClosingEdge(cycles, p)
    {
      ghost var edges := Edges(reverseDependencies);
      var search := new DependencySearch(reverseDependencies, registry.Keys);
      var todo := registry.Keys;
      while todo != {}
        invariant fresh(search) && search.dependents == reverseDependencies && search.roots == registry.Keys
        invariant search.Valid() && search.stack == [] && todo <= registry.Keys
        invariant registry.Keys - todo <= search.visited
      {
        var agentType :| agentType in todo;
        todo := todo - {agentType};
        search.Dfs(agentType);
      }
      cycles := search.cycles;
      ReportedAreCycles(edges, registry.Keys, search.View());
      forall p | IsCycle(edges, p) ensures UsesClosingEdge(cycles, p) {
        AnchoredCycleIsReachable(View(), p);
        EveryCycleIsReported(edges, registry.Keys, search.View(), p);
      }
      assert cycles != [] ==> cycles[0] in cycles;
    }

    /** Validation fails exactly when the recorded graph has a cycle. */
    method ValidateRegistry() returns (result: Result<(), Error>)
      requires Valid()
      ensures result.Ok? <==> Acyclic(Edges(reverseDependencies))
      ensures result.Err? ==> result.error.CircularDependencies? && result.error.cycles != []
                              && forall c :: c in result.error.cycles ==> IsSimpleCycle(Edges(reverseDependencies), c)
    {
      var circular := DetectCircularDependencies();
      if circular != [] {
        return Err(CircularDependencies(circular));
      }
      return Ok(());
    }
  }
}
