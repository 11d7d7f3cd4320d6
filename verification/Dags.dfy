/** The attributed directed graph that the pipeline parser builds and rewrites in place, with the library
    analyses it relies on: topological generations, the acyclicity test and descendants. */
module Dags {
  import opened Graphs

  /** The attributes a node can carry; the fields a node was not given are empty. */
  datatype Attributes = Attributes(kind: string, hooks: map<string, seq<string>>, parent: string, tasks: seq<string>)

  const BARE := Attributes("", map[], "", [])

  datatype Dag = Dag(attrs: map<string, Attributes>, edges: set<(string, string)>) {
    function Shape(): Graph<string> {
      Graph(attrs.Keys, edges)
    }
  }

  class DiGraph {
    var attrs: map<string, Attributes>
    var edges: set<(string, string)>

    constructor ()
      ensures View() == Dag(map[], {})
    {
      attrs, edges := map[], {};
    }

    constructor Copy(other: DiGraph)
      ensures View() == other.View()
    {
      attrs, edges := other.attrs, other.edges;
    }

    ghost function View(): Dag
      reads this
    {
      Dag(attrs, edges)
    }

    ghost predicate Valid()
      reads this
    {
      WellFormed(View().Shape())
    }

    method AddNode(node: string, attributes: Attributes)
      requires Valid()
      modifies this`attrs
      ensures Valid() && attrs == old(attrs)[node := attributes]
    {
      attrs := attrs[node := attributes];
    }

    /** Adds an edge; an endpoint that is not a node yet becomes one without attributes. */
    method AddEdge(source: string, target: string)
      requires Valid()
      modifies this
      ensures Valid() && edges == old(edges) + {(source, target)}
      ensures attrs.Keys == old(attrs).Keys + {source, target}
      ensures forall n :: n in attrs ==> attrs[n] == if n in old(attrs) then old(attrs)[n] else BARE
    {
      if source !in attrs {
        attrs := attrs[source := BARE];
      }
      if target !in attrs {
        attrs := attrs[target := BARE];
      }
      edges := edges + {(source, target)};
    }

    /** Removes a node together with the edges at it. */
    method RemoveNode(node: string)
      requires Valid() && node in attrs
      modifies this
      ensures Valid() && attrs == old(attrs) - {node}
      ensures edges == set e | e in old(edges) && e.0 != node && e.1 != node
    {
      attrs := attrs - {node};
      edges := set e | e in edges && e.0 != node && e.1 != node;
    }
  }

  // ----- Topological generations -----

  /** The position of the generation that holds `v`. */
  ghost predicate InGeneration(generations: seq<seq<string>>, v: string, k: int) {
    0 <= k < |generations| && v in generations[k]
  }

  /** The generations list every node exactly once, and every edge leads to a later generation. */
  ghost predicate IsLayering(g: Graph<string>, generations: seq<seq<string>>) {
    && (forall v :: v in g.nodes <==> exists k :: InGeneration(generations, v, k))
    && (forall v, j, k :: InGeneration(generations, v, j) && InGeneration(generations, v, k) ==> j == k)
    && (forall k :: 0 <= k < |generations| ==> NoDuplicates(generations[k]))
    && (forall u, v, j, k :: (u, v) in g.edges && InGeneration(generations, u, j) && InGeneration(generations, v, k) ==>
        j < k)
  }

  /** No generation is empty, and every node after the first generation has a predecessor in the one before. */
  ghost predicate IsEarliest(g: Graph<string>, generations: seq<seq<string>>) {
    && (forall k :: 0 <= k < |generations| ==> generations[k] != [])
    && (forall v, k :: InGeneration(generations, v, k) && k > 0 ==> HasPredecessorAmong(g, generations[k - 1], v))
  }

  ghost predicate HasPredecessorAmong(g: Graph<string>, s: seq<string>, v: string) {
    exists u :: u in s && (u, v) in g.edges
  }

  /** A node is in generation number `k` exactly when the longest walk to it has `k` edges. */
  lemma GenerationIsLongestWalk(g: Graph<string>, generations: seq<seq<string>>, v: string, k: nat)
    requires WellFormed(g) && IsLayering(g, generations) && IsEarliest(g, generations) && v in g.nodes
    ensures InGeneration(generations, v, k) <==>
            && (exists p :: IsWalk(g.edges, p) && p[|p| - 1] == v && |p| == k + 1)
            && (forall p :: IsWalk(g.edges, p) && p[|p| - 1] == v ==> |p| <= k + 1)
  {
    var j := GenerationOf(g, generations, v);
    var q := WalkToGeneration(g, generations, v, j);
    forall p | IsWalk(g.edges, p) && p[|p| - 1] == v ensures |p| <= j + 1 {
      WalkIsShort(g, generations, p, j);
    }
  }

  lemma {:induction false} WalkToGeneration(g: Graph<string>, generations: seq<seq<string>>, v: string, k: nat)
    returns (p: seq<string>)
    requires IsEarliest(g, generations) && InGeneration(generations, v, k)
    ensures IsWalk(g.edges, p) && p[|p| - 1] == v && |p| == k + 1
    decreases k
  {
    if k == 0 {
      p := [v];
    } else {
      assert HasPredecessorAmong(g, generations[k - 1], v);
      var u :| u in generations[k - 1] && (u, v) in g.edges;
      var q := WalkToGeneration(g, generations, u, k - 1);
      p := q + [v];
    }
  }

  lemma {:induction false} WalkIsShort(g: Graph<string>, generations: seq<seq<string>>, p: seq<string>, k: nat)
    requires WellFormed(g) && IsLayering(g, generations) && IsWalk(g.edges, p)
    requires InGeneration(generations, p[|p| - 1], k)
    ensures |p| <= k + 1
  {
    if |p| == 1 {
    } else {
      var n := |p| - 1;
      assert (p[n - 1], p[n - 1 + 1]) in g.edges;
      var j := GenerationOf(g, generations, p[n - 1]);
      WalkIsShort(g, generations, p[..n], j);
    }
  }

  /** The nodes of `todo` all wait for one another or for the last generation. */
  ghost predicate Waiting(g: Graph<string>, generations: seq<seq<string>>, todo: set<string>) {
    generations != [] ==> forall v :: v in todo ==> WaitsFor(g, generations[|generations| - 1], todo, v)
  }

  ghost predicate WaitsFor(g: Graph<string>, last: seq<string>, todo: set<string>, v: string) {
    exists u :: (u in last || u in todo) && (u, v) in g.edges
  }

  lemma NextIsEarliest(g: Graph<string>, generations: seq<seq<string>>, todo: set<string>, layer: seq<string>)
    requires IsEarliest(g, generations) && Waiting(g, generations, todo) && Free(g, todo) != {}
    requires forall v :: v in layer <==> v in Free(g, todo)
    ensures IsEarliest(g, generations + [layer]) && Waiting(g, generations + [layer], todo - Free(g, todo))
  {
    var n, now := |generations|, generations + [layer];
    var any :| any in Free(g, todo);
    assert any in layer;
    forall v, k | InGeneration(now, v, k) && k > 0 ensures HasPredecessorAmong(g, now[k - 1], v) {
      if k < n {
        assert InGeneration(generations, v, k);
      } else {
        assert WaitsFor(g, generations[n - 1], todo, v);
        assert v in layer && now[n - 1] == generations[n - 1];
      }
    }
    forall v | v in todo - Free(g, todo) ensures WaitsFor(g, layer, todo - Free(g, todo), v) {
      var u :| u in todo && (u, v) in g.edges;
      assert u in layer || u in todo - Free(g, todo);
    }
  }

  /** As IsLayering, for the nodes of `done` only, which no edge enters from outside. */
  ghost predicate LayersSoFar(g: Graph<string>, generations: seq<seq<string>>, done: set<string>) {
    && IsLayering(Graph(done, g.edges), generations)
    && (forall u, v :: (u, v) in g.edges && v in done ==> u in done)
  }

  lemma LayeringImpliesAcyclic(g: Graph<string>, generations: seq<seq<string>>)
    requires WellFormed(g) && IsLayering(g, generations)
    ensures Acyclic(g.edges)
  {
    var rank: map<string, int> := map v | v in g.nodes :: GenerationOf(g, generations, v);
    forall u, v | (u, v) in g.edges ensures u in rank && v in rank && rank[u] < rank[v] {
      assert InGeneration(generations, u, rank[u]) && InGeneration(generations, v, rank[v]);
    }
    RankImpliesAcyclic(g.edges, rank);
  }

  ghost function GenerationOf(g: Graph<string>, generations: seq<seq<string>>, v: string): (k: int)
    requires IsLayering(g, generations) && v in g.nodes
    ensures InGeneration(generations, v, k)
  {
    var k :| InGeneration(generations, v, k);
    k
  }

  /** The nodes of `todo` with no predecessor in `todo`. */
  function Free(g: Graph<string>, todo: set<string>): (free: set<string>)
    ensures free <= todo
  {
    set v | v in todo && forall u :: u in todo ==> (u, v) !in g.edges
  }

  lemma StuckMeansCyclic(g: Graph<string>, todo: set<string>)
    requires todo != {} && Free(g, todo) == {}
    ensures !Acyclic(g.edges)
  {
    forall v | v in todo ensures HasPredecessorIn(g.edges, todo, v) {
      assert v !in Free(g, todo);
    }
    NoSourceMeansCyclic(g.edges, todo);
  }

  lemma NextLayer(g: Graph<string>, generations: seq<seq<string>>, todo: set<string>, layer: seq<string>)
    requires WellFormed(g) && todo <= g.nodes && LayersSoFar(g, generations, g.nodes - todo) && NoDuplicates(layer)
    requires forall v :: v in layer <==> v in Free(g, todo)
    ensures LayersSoFar(g, generations + [layer], g.nodes - (todo - Free(g, todo)))
  {
    var done := g.nodes - todo;
    var generations', done' := generations + [layer], g.nodes - (todo - Free(g, todo));
    var n := |generations|;
    forall v, k
      ensures InGeneration(generations', v, k) <==> InGeneration(generations, v, k) || (k == n && v in layer)
    {
    }
    forall v ensures v in done' <==> exists k :: InGeneration(generations', v, k) {
      if v in layer {
        assert InGeneration(generations', v, n);
      } else if v in done {
        var k :| InGeneration(generations, v, k);
        assert InGeneration(generations', v, k);
      }
    }
    forall v, k | InGeneration(generations, v, k) ensures v in done {
    }
  }

  lemma NoLayers(g: Graph<string>)
    ensures LayersSoFar(g, [], g.nodes - g.nodes)
  {
  }

  lemma AllLayers(g: Graph<string>, generations: seq<seq<string>>)
    requires LayersSoFar(g, generations, g.nodes - {})
    ensures IsLayering(g, generations)
  {
    assert g.nodes - {} == g.nodes;
    assert Graph(g.nodes, g.edges) == g;
  }

  /** Kahn's layering: repeatedly list the nodes whose predecessors have all been listed, so no node comes
      later than it must.  It fails exactly on graphs with a cycle. */
  method TopologicalGenerations(g: Graph<string>) returns (acyclic: bool, generations: seq<seq<string>>)
    requires WellFormed(g)
    ensures acyclic <==> Acyclic(g.edges)
    ensures acyclic ==> IsLayering(g, generations) && IsEarliest(g, generations)
  {
    assert IsEarliest(g, []) && Waiting(g, [], g.nodes);
    hide LayersSoFar, IsLayering, IsEarliest, Waiting, Acyclic, Free;
    generations := [];
    NoLayers(g);
    var todo := g.nodes;
    while todo != {}
      invariant todo <= g.nodes && LayersSoFar(g, generations, g.nodes - todo)
      invariant IsEarliest(g, generations) && Waiting(g, generations, todo)
      decreases todo
    {
      var free := Free(g, todo);
      if free == {} {
        StuckMeansCyclic(g, todo);
        return false, [];
      }
      var layer := Listing(free);
      NextLayer(g, generations, todo, layer);
      NextIsEarliest(g, generations, todo, layer);
      generations := generations + [layer];
      todo := todo - free;
    }
    AllLayers(g, generations);
    LayeringImpliesAcyclic(g, generations);
    return true, generations;
  }

  // ----- Reachability from the roots -----

  /** The edges out of seen nodes behind the frontier lead to seen nodes. */
  ghost predicate Explored(edges: set<(string, string)>, frontier: set<string>, seen: set<string>) {
    forall u, v :: (u, v) in edges && u in seen && u !in frontier ==> v in seen
  }

  lemma FrontierStep(g: Graph<string>, frontier: set<string>, seen: set<string>, u: string, next: set<string>)
    requires WellFormed(g) && Explored(g.edges, frontier, seen)
    requires next == set v | v in g.nodes && v !in seen && (u, v) in g.edges
    ensures Explored(g.edges, frontier - {u} + next, seen + next)
    ensures next == {} ==> frontier - {u} + next == frontier - {u} && seen + next == seen
  {
    forall a, b | (a, b) in g.edges && a in seen + next && a !in frontier - {u} + next ensures b in seen + next {
      assert b in g.nodes;
    }
  }

  /** Every node a walk from `source` leads to, `source` itself excluded. */
  method Descendants(g: Graph<string>, source: string) returns (found: set<string>)
    requires WellFormed(g) && source in g.nodes
    ensures forall v :: v in found <==> v != source && Reach(g.edges, source, v)
  {
    var frontier, seen := {source}, {source};
    ReachRefl(g.edges, source);
    while frontier != {}
      invariant source in seen && frontier <= seen <= g.nodes
      invariant forall v :: v in seen ==> Reach(g.edges, source, v)
      invariant Explored(g.edges, frontier, seen)
      decreases g.nodes - seen, frontier
    {
      var u :| u in frontier;
      var next := set v | v in g.nodes && v !in seen && (u, v) in g.edges;
      forall v | v in next ensures Reach(g.edges, source, v) {
        ReachEdge(g.edges, u, v);
        ReachTrans(g.edges, source, u, v);
      }
      FrontierStep(g, frontier, seen, u, next);
      if next == {} {
        frontier := frontier - {u};
      } else {
        frontier, seen := frontier - {u} + next, seen + next;
      }
    }
    forall v | Reach(g.edges, source, v) ensures v in seen {
      ReachStaysInside(g.edges, seen, source, v);
    }
    found := seen - {source};
  }

  ghost predicate IsRoot(g: Graph<string>, v: string) {
    v in g.nodes && forall u :: (u, v) !in g.edges
  }

  ghost predicate HasRoot(g: Graph<string>, v: string) {
    exists r :: IsRoot(g, r) && Reach(g.edges, r, v)
  }

  lemma {:induction false} RankedNodeHasRoot(g: Graph<string>, rank: map<string, int>, v: string)
    requires WellFormed(g) && rank.Keys == g.nodes && IsRank(g.edges, rank) && v in g.nodes
    requires forall u :: u in rank ==> 0 <= rank[u]
    ensures HasRoot(g, v)
    decreases rank[v]
  {
    if u :| (u, v) in g.edges {
      RankedNodeHasRoot(g, rank, u);
      var r :| IsRoot(g, r) && Reach(g.edges, r, u);
      ReachEdge(g.edges, u, v);
      ReachTrans(g.edges, r, u, v);
    } else {
      ReachRefl(g.edges, v);
      assert IsRoot(g, v);
    }
  }

  /** In a finite acyclic graph every node is a root or is reachable from one. */
  lemma AcyclicNodesHaveRoots(g: Graph<string>)
    requires WellFormed(g) && Acyclic(g.edges)
    ensures forall v :: v in g.nodes ==> HasRoot(g, v)
  {
    var rank := AcyclicHasRank(g, 0);
    forall v | v in g.nodes ensures HasRoot(g, v) {
      RankedNodeHasRoot(g, rank, v);
    }
  }
}
