/** Finite directed graphs: walks, reachability, strongly connected components, acyclicity and
    topological ranks.  The graph algorithms of the repository are stated in these terms. */
module Graphs {

  /** A snapshot of a directed graph. */
  datatype Graph<N(==)> = Graph(nodes: set<N>, edges: set<(N, N)>)

  ghost predicate WellFormed<N(!new)>(g: Graph<N>) {
    forall u, v :: (u, v) in g.edges ==> u in g.nodes && v in g.nodes
  }

  /** A nonempty sequence of nodes, each joined to the next by an edge. */
  ghost predicate IsWalk<N(!new)>(edges: set<(N, N)>, p: seq<N>) {
    |p| > 0 && forall i :: 0 <= i < |p| - 1 ==> (p[i], p[i + 1]) in edges
  }

  ghost predicate WalkBetween<N(!new)>(edges: set<(N, N)>, p: seq<N>, x: N, y: N) {
    IsWalk(edges, p) && p[0] == x && p[|p| - 1] == y
  }

  ghost predicate Reach<N(!new)>(edges: set<(N, N)>, x: N, y: N) {
    exists p :: WalkBetween(edges, p, x, y)
  }

  /** A closed walk with at least one edge; a self-loop is the shortest one. */
  ghost predicate IsCycle<N(!new)>(edges: set<(N, N)>, p: seq<N>) {
    |p| >= 2 && IsWalk(edges, p) && p[0] == p[|p| - 1]
  }

  ghost predicate Acyclic<N(!new)>(edges: set<(N, N)>) {
    forall p :: !IsCycle(edges, p)
  }

  ghost predicate NoDuplicates<N(!new)>(s: seq<N>) {
    forall i, j :: 0 <= i < j < |s| ==> s[i] != s[j]
  }

  function Elements<N>(s: seq<N>): (r: set<N>) {
    set x | x in s
  }

  function Position<N(==)>(s: seq<N>, v: N): (i: nat)
    requires v in s
    ensures i < |s| && s[i] == v && v !in s[..i]
  {
    if s[0] == v then 0 else
      assert s == [s[0]] + s[1..];
      1 + Position(s[1..], v)
  }

  /** The members of a set, in some order. */
  method Listing<N(==, !new)>(s: set<N>) returns (list: seq<N>)
    ensures NoDuplicates(list) && forall v :: v in list <==> v in s
  {
    list := [];
    var todo := s;
    while todo != {}
      invariant NoDuplicates(list) && todo <= s
      invariant forall v :: v in list <==> v in s && v !in todo
    {
      var v :| v in todo;
      todo := todo - {v};
      list := list + [v];
    }
  }

  /** A maximal set of mutually reachable nodes. */
  ghost predicate IsScc<N(!new)>(g: Graph<N>, c: set<N>) {
    && c != {} && c <= g.nodes
    && (forall x, y :: x in c && y in c ==> Reach(g.edges, x, y))
    && (forall x, y :: x in c && y in g.nodes && Reach(g.edges, x, y) && Reach(g.edges, y, x) ==> y in c)
  }

  ghost predicate ClosedUnder<N(!new)>(edges: set<(N, N)>, s: set<N>) {
    forall u, v :: (u, v) in edges && u in s ==> v in s
  }

  /** Every edge goes strictly upwards in `rank`. */
  ghost predicate IsRank<N(!new)>(edges: set<(N, N)>, rank: map<N, int>) {
    forall u, v :: (u, v) in edges ==> u in rank && v in rank && rank[u] < rank[v]
  }

  /** Each node once, and every edge from an earlier to a later position. */
  ghost predicate IsTopologicalOrder<N(!new)>(g: Graph<N>, order: seq<N>) {
    && NoDuplicates(order) && (forall v :: v in order <==> v in g.nodes)
    && (forall a, b :: 0 <= a < |order| && 0 <= b < |order| && (order[a], order[b]) in g.edges ==> a < b)
  }

  lemma ReachRefl<N(!new)>(edges: set<(N, N)>, x: N)
    ensures Reach(edges, x, x)
  {
    assert WalkBetween(edges, [x], x, x);
  }

  lemma ReachEdge<N(!new)>(edges: set<(N, N)>, x: N, y: N)
    requires (x, y) in edges
    ensures Reach(edges, x, y)
  {
    assert WalkBetween(edges, [x, y], x, y);
  }

  lemma ReachTrans<N(!new)>(edges: set<(N, N)>, x: N, y: N, z: N)
    requires Reach(edges, x, y) && Reach(edges, y, z)
    ensures Reach(edges, x, z)
  {
    var p :| WalkBetween(edges, p, x, y);
    var q :| WalkBetween(edges, q, y, z);
    assert WalkBetween(edges, p + q[1..], x, z);
  }

  /** A walk that starts inside a set closed under the edges never leaves it. */
  lemma {:induction false} WalkStaysInside<N(!new)>(edges: set<(N, N)>, s: set<N>, p: seq<N>, k: nat)
    requires ClosedUnder(edges, s) && IsWalk(edges, p) && p[0] in s && k < |p|
    ensures p[k] in s
  {
    if k == 0 {
    } else {
      WalkStaysInside(edges, s, p, k - 1);
      assert (p[k - 1], p[k - 1 + 1]) in edges;
    }
  }

  lemma ReachStaysInside<N(!new)>(edges: set<(N, N)>, s: set<N>, x: N, y: N)
    requires ClosedUnder(edges, s) && x in s && Reach(edges, x, y)
    ensures y in s
  {
    var p :| WalkBetween(edges, p, x, y);
    WalkStaysInside(edges, s, p, |p| - 1);
  }

  /** Two components that share a node are the same component. */
  lemma SccsDisjoint<N(!new)>(g: Graph<N>, c: set<N>, d: set<N>, x: N)
    requires IsScc(g, c) && IsScc(g, d) && x in c && x in d
    ensures c == d
  {
  }

  lemma {:induction false} RankRises<N(!new)>(edges: set<(N, N)>, rank: map<N, int>, p: seq<N>, k: nat)
    requires IsRank(edges, rank) && IsWalk(edges, p) && 1 <= k < |p|
    ensures p[0] in rank && p[k] in rank && rank[p[0]] < rank[p[k]]
  {
    assert (p[k - 1], p[k - 1 + 1]) in edges;
    if k == 1 {
    } else {
      RankRises(edges, rank, p, k - 1);
    }
  }

  lemma RankImpliesAcyclic<N(!new)>(edges: set<(N, N)>, rank: map<N, int>)
    requires IsRank(edges, rank)
    ensures Acyclic(edges)
  {
    forall p ensures !IsCycle(edges, p) {
      if IsCycle(edges, p) {
        RankRises(edges, rank, p, |p| - 1);
      }
    }
  }

  lemma {:induction false} NoDuplicatesFits<N(!new)>(s: seq<N>, universe: set<N>)
    requires NoDuplicates(s) && forall x :: x in s ==> x in universe
    ensures |s| <= |universe|
    ensures |s| == |Elements(s)|
  {
    if s != [] {
      var x := s[|s| - 1];
      var rest := s[..|s| - 1];
      NoDuplicatesFits(rest, universe - {x});
      assert Elements(s) == Elements(rest) + {x};
    } else {
      assert Elements(s) == {};
    }
  }

  lemma {:induction false} SubsetSize<T>(a: set<T>, b: set<T>)
    requires a <= b
    ensures |a| <= |b|
  {
    if a == {} {
    } else {
      var x :| x in a;
      SubsetSize(a - {x}, b - {x});
    }
  }

  ghost predicate HasPredecessorIn<N(!new)>(edges: set<(N, N)>, s: set<N>, v: N) {
    exists u :: u in s && (u, v) in edges
  }

  lemma NoDuplicatesConcat<N(!new)>(a: seq<N>, b: seq<N>)
    requires forall x :: x in a ==> x !in b
    ensures NoDuplicates(a + b) <==> NoDuplicates(a) && NoDuplicates(b)
  {
    if NoDuplicates(a + b) {
      forall i, j | 0 <= i < j < |a| ensures a[i] != a[j] {
        assert (a + b)[i] != (a + b)[j];
      }
      forall i, j | 0 <= i < j < |b| ensures b[i] != b[j] {
        assert (a + b)[|a| + i] != (a + b)[|a| + j];
      }
    }
    if NoDuplicates(a) && NoDuplicates(b) {
      forall i, j | 0 <= i < j < |a + b| ensures (a + b)[i] != (a + b)[j] {
        if i < |a| <= j {
          assert a[i] in a && b[j - |a|] in b;
        }
      }
    }
  }

  /** If every node of `s` has a predecessor in `s`, walks of any length end in any node of `s`. */
  lemma {:induction false} BackwardWalk<N(!new)>(edges: set<(N, N)>, s: set<N>, x: N, n: nat) returns (p: seq<N>)
    requires x in s
    requires forall v :: v in s ==> HasPredecessorIn(edges, s, v)
    ensures |p| == n + 1 && IsWalk(edges, p) && p[n] == x && forall i :: 0 <= i < |p| ==> p[i] in s
  {
    if n == 0 {
      p := [x];
    } else {
      var u :| u in s && (u, x) in edges;
      var q := BackwardWalk(edges, s, u, n - 1);
      p := q + [x];
    }
  }

  /** A finite nonempty set of nodes of an acyclic graph has a node with no predecessor in the set. */
  lemma AcyclicHasSource<N(!new)>(edges: set<(N, N)>, s: set<N>) returns (v: N)
    requires Acyclic(edges) && s != {}
    ensures v in s && !HasPredecessorIn(edges, s, v)
  {
    if forall v :: v in s ==> HasPredecessorIn(edges, s, v) {
      var x :| x in s;
      var p := BackwardWalk(edges, s, x, |s|);
      if NoDuplicates(p) {
        NoDuplicatesFits(p, s);
        assert false;
      }
      var i, j :| 0 <= i < j < |p| && p[i] == p[j];
      assert IsCycle(edges, p[i..j + 1]);
      assert false;
    }
    v :| v in s && !HasPredecessorIn(edges, s, v);
  }

  lemma NoSourceMeansCyclic<N(!new)>(edges: set<(N, N)>, s: set<N>)
    requires s != {} && forall v :: v in s ==> HasPredecessorIn(edges, s, v)
    ensures !Acyclic(edges)
  {
    if Acyclic(edges) {
      var v := AcyclicHasSource(edges, s);
    }
  }

  /** Every finite acyclic graph has a topological rank; `base` is its smallest value. */
  lemma {:induction false} AcyclicHasRank<N(!new)>(g: Graph<N>, base: int) returns (rank: map<N, int>)
    requires WellFormed(g) && Acyclic(g.edges)
    ensures rank.Keys == g.nodes && IsRank(g.edges, rank)
    ensures forall x :: x in rank ==> base <= rank[x] < base + |g.nodes|
    decreases |g.nodes|
  {
    if g.nodes == {} {
      rank := map[];
    } else {
      var v := AcyclicHasSource(g.edges, g.nodes);
      assert forall u :: u in g.nodes ==> (u, v) !in g.edges;
      var rest := Graph(g.nodes - {v}, set e | e in g.edges && e.0 != v);
      forall p ensures !IsCycle(rest.edges, p) {
        if IsCycle(rest.edges, p) {
          assert IsCycle(g.edges, p);
        }
      }
      var above := AcyclicHasRank(rest, base + 1);
      rank := above[v := base];
      forall x, y | (x, y) in g.edges
        ensures x in rank && y in rank && rank[x] < rank[y]
      {
        if x != v {
          assert (x, y) in rest.edges;
        }
      }
    }
  }
}
