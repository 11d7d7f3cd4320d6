/** The cycle detector of the workflow validator: Tarjan's strongly connected components.
    The detector is a recursive procedure over shared mutable tables.  Here the tables are the fields of
    an object, and every reasoning step is a lemma about a snapshot of their values. */
module Validator {
  import opened Graphs

  /** A snapshot of the detector's tables; `active` holds the nodes whose call has not returned. */
  datatype Search<N(==)> = Search(index: nat, indices: map<N, nat>, lowlink: map<N, nat>,
                                  stack: seq<N>, sccs: seq<seq<N>>, active: set<N>)

  // ----- Emitted components -----

  ghost predicate IsEmitted<N(!new)>(sccs: seq<seq<N>>, v: N) {
    exists i :: 0 <= i < |sccs| && v in sccs[i]
  }

  ghost predicate EmittedBy<N(!new)>(sccs: seq<seq<N>>, v: N, k: int) {
    exists j :: 0 <= j <= k && j < |sccs| && v in sccs[j]
  }

  /** Every emitted list is a component without repetition, no node is emitted twice, and an edge out of
      a component leads to a component that was emitted no later. */
  ghost predicate EmittedComponents<N(!new)>(g: Graph<N>, sccs: seq<seq<N>>) {
    && (forall i :: 0 <= i < |sccs| ==> NoDuplicates(sccs[i]) && IsScc(g, Elements(sccs[i])))
    && (forall i, j, x :: 0 <= i < j < |sccs| && x in sccs[i] ==> x !in sccs[j])
    && (forall i, x, y :: 0 <= i < |sccs| && x in sccs[i] && (x, y) in g.edges ==> EmittedBy(sccs, y, i))
  }

  // ----- The search invariant -----

  /** The stack lists discovered nodes in order of discovery. */
  ghost predicate StackShape<N(!new)>(indices: map<N, nat>, index: nat, stack: seq<N>) {
    && (forall v :: v in indices ==> indices[v] < index)
    && (forall v :: v in stack ==> v in indices)
    && (forall i, j :: 0 <= i < j < |stack| ==> indices[stack[i]] < indices[stack[j]])
  }

  /** `y` reaches a call that is still active and was entered no later than `y`. */
  ghost predicate ReachesActive<N(!new)>(edges: set<(N, N)>, active: set<N>, indices: map<N, nat>, y: N) {
    exists x :: x in active && x in indices && y in indices && indices[x] <= indices[y] && Reach(edges, y, x)
  }

  ghost predicate SearchInvariant<N(!new)>(g: Graph<N>, s: Search<N>) {
    && StackShape(s.indices, s.index, s.stack)
    && s.indices.Keys <= g.nodes
    && s.lowlink.Keys == s.indices.Keys
    && (forall v :: v in s.active ==> v in s.stack)
    && (forall v :: v in s.indices ==> (v in s.stack <==> !IsEmitted(s.sccs, v)))
    && (forall v :: IsEmitted(s.sccs, v) ==> v in s.indices)
    && (forall u, w :: (u, w) in g.edges && u in s.indices && u !in s.active ==> w in s.indices)
    && (forall x, y :: x in s.active && y in s.stack && s.indices[x] <= s.indices[y] ==> Reach(g.edges, x, y))
    && (forall y {:trigger ReachesActive(g.edges, s.active, s.indices, y)} ::
          y in s.stack ==> ReachesActive(g.edges, s.active, s.indices, y))
  }

  /** `low` bounds from below the index of every node of `base` that an edge from above `base` reaches,
      edges from `v` into `todo` excepted. */
  ghost predicate BoundsCrossings<N(!new)>(edges: set<(N, N)>, s: Search<N>, base: seq<N>, v: N, todo: set<N>,
                                    low: nat) {
    forall y, z ::
      y in s.stack && y !in base && (y, z) in edges && z in base && z in s.indices && !(y == v && z in todo) ==>
        low <= s.indices[z]
  }

  /** `low` is the index of a stack node that `v` reaches. */
  ghost predicate LowIsReached<N(!new)>(edges: set<(N, N)>, s: Search<N>, v: N, low: nat) {
    exists u :: u in s.stack && u in s.indices && s.indices[u] == low && Reach(edges, v, u)
  }

  ghost predicate Extends<N(!new)>(table: map<N, nat>, table': map<N, nat>) {
    forall v :: v in table ==> v in table' && table'[v] == table[v]
  }

  /** What a call on `v` tells its caller, from snapshot `s0` at its start to `s` at its end. */
  ghost predicate CallResult<N(!new)>(g: Graph<N>, s0: Search<N>, s: Search<N>, v: N) {
    && s.active == s0.active && s0.stack <= s.stack && s0.sccs <= s.sccs
    && Extends(s0.indices, s.indices) && Extends(s0.lowlink, s.lowlink)
    && v in s.indices && v in s.lowlink && s0.index <= s.indices[v] && s.lowlink[v] <= s.indices[v]
    && (v in s.stack ==> LowIsReached(g.edges, s, v, s.lowlink[v]))
    && (v !in s.stack ==> s.lowlink[v] == s.indices[v])
    && BoundsCrossings(g.edges, s, s0.stack, v, {}, s.lowlink[v])
  }

  /** What holds in the call on `v` while the successors in `todo` have not been examined. */
  ghost predicate Scanning<N(!new)>(g: Graph<N>, s0: Search<N>, s: Search<N>, v: N, todo: set<N>) {
    && v !in s0.indices && v !in s0.lowlink && (forall x :: x in s0.active ==> x in s0.stack && x != v)
    && s.active == s0.active + {v} && s0.stack + [v] <= s.stack && s0.sccs <= s.sccs
    && Extends(s0.indices, s.indices) && Extends(s0.lowlink, s.lowlink)
    && v in s.indices && v in s.lowlink && s.indices[v] == s0.index && s.lowlink[v] <= s.indices[v]
    && LowIsReached(g.edges, s, v, s.lowlink[v])
    && BoundsCrossings(g.edges, s, s0.stack, v, todo, s.lowlink[v])
    && (forall w :: (v, w) in g.edges && w !in todo ==> w in s.indices)
  }

  lemma PushedMembers<N>(base: seq<N>, v: N, stack: seq<N>)
    requires base + [v] <= stack
    ensures |base| < |stack| && stack[|base|] == v && base == stack[..|base|]
    ensures forall u :: u in base ==> u in stack
  {
    forall i | 0 <= i < |base| + 1 ensures (base + [v])[i] == stack[i] {}
    assert forall i :: 0 <= i < |base| ==> base[i] == (base + [v])[i];
  }

  // ----- Entering a call -----

  function Enter<N>(s: Search<N>, v: N): Search<N> {
    Search(s.index + 1, s.indices[v := s.index], s.lowlink[v := s.index], s.stack + [v], s.sccs, s.active + {v})
  }

  lemma EnterKeepsInvariant<N(!new)>(g: Graph<N>, s: Search<N>, v: N)
    requires SearchInvariant(g, s) && v in g.nodes && v !in s.indices
    requires forall x :: x in s.active ==> Reach(g.edges, x, v)
    ensures SearchInvariant(g, Enter(s, v))
  {
    var s' := Enter(s, v);
    ReachRefl(g.edges, v);
    assert forall u :: u in s'.stack <==> u in s.stack || u == v;
    forall y {:trigger ReachesActive(g.edges, s'.active, s'.indices, y)} | y in s'.stack
      ensures ReachesActive(g.edges, s'.active, s'.indices, y)
    {
      if y == v {
        assert v in s'.active;
      } else {
        assert ReachesActive(g.edges, s.active, s.indices, y);
        var x :| x in s.active && x in s.indices && s.indices[x] <= s.indices[y] && Reach(g.edges, y, x);
        assert x in s'.active && s'.indices[x] <= s'.indices[y];
      }
    }
  }

  lemma EnterStartsScanning<N(!new)>(g: Graph<N>, s: Search<N>, v: N, todo: set<N>)
    requires SearchInvariant(g, s) && v !in s.indices
    requires forall w :: (v, w) in g.edges ==> w in todo
    ensures Scanning(g, s, Enter(s, v), v, todo)
  {
    var s' := Enter(s, v);
    ReachRefl(g.edges, v);
    assert s'.stack[|s.stack|] == v;
    assert forall u :: u in s'.stack <==> u in s.stack || u == v;
  }

  // ----- Examining one successor -----

  function LowerTo<N>(s: Search<N>, v: N, low: nat): Search<N>
    requires v in s.lowlink
  {
    s.(lowlink := s.lowlink[v := Min(s.lowlink[v], low)])
  }

  function Min(a: nat, b: nat): (r: nat) {
    if a <= b then a else b
  }

  lemma LowerKeepsInvariant<N(!new)>(g: Graph<N>, s: Search<N>, v: N, low: nat)
    requires SearchInvariant(g, s) && v in s.lowlink
    ensures SearchInvariant(g, LowerTo(s, v, low))
  {
    var s' := LowerTo(s, v, low);
    assert s' == s.(lowlink := s'.lowlink);
  }

  lemma LowIsReachedBefore<N(!new)>(edges: set<(N, N)>, s: Search<N>, v: N, w: N, low: nat)
    requires (v, w) in edges && LowIsReached(edges, s, w, low)
    ensures LowIsReached(edges, s, v, low)
  {
    var u :| u in s.stack && u in s.indices && s.indices[u] == low && Reach(edges, w, u);
    ReachEdge(edges, v, w);
    ReachTrans(edges, v, w, u);
  }

  lemma LowIsReachedLater<N(!new)>(edges: set<(N, N)>, s: Search<N>, s': Search<N>, v: N, low: nat)
    requires s.stack <= s'.stack && Extends(s.indices, s'.indices) && LowIsReached(edges, s, v, low)
    ensures LowIsReached(edges, s', v, low)
  {
    var u :| u in s.stack && u in s.indices && s.indices[u] == low && Reach(edges, v, u);
    assert u in s'.stack;
  }

  /** A discovered successor on the stack lowers the lowlink to its index. */
  lemma ScanOnStack<N(!new)>(g: Graph<N>, s0: Search<N>, s: Search<N>, v: N, todo: set<N>, w: N)
    requires Scanning(g, s0, s, v, todo)
    requires w in s.indices && w in s.stack && (v, w) in g.edges
    ensures Scanning(g, s0, LowerTo(s, v, s.indices[w]), v, todo - {w})
  {
    var s' := LowerTo(s, v, s.indices[w]);
    ReachRefl(g.edges, w);
    assert LowIsReached(g.edges, s, w, s.indices[w]);
    LowIsReachedBefore(g.edges, s, v, w, s.indices[w]);
    LowIsReachedLater(g.edges, s, s', v, s'.lowlink[v]);
  }

  /** A discovered successor off the stack belongs to an emitted component and changes nothing. */
  lemma ScanOffStack<N(!new)>(g: Graph<N>, s0: Search<N>, s: Search<N>, v: N, todo: set<N>, w: N)
    requires Scanning(g, s0, s, v, todo)
    requires w in s.indices && w !in s.stack
    ensures Scanning(g, s0, s, v, todo - {w})
  {
    PushedMembers(s0.stack, v, s.stack);
  }

  /** A new successor: its call returns, and its lowlink lowers that of `v`. */
  lemma ScanCall<N(!new)>(g: Graph<N>, s0: Search<N>, s: Search<N>, s1: Search<N>, v: N, todo: set<N>, w: N)
    requires SearchInvariant(g, s)
    requires Scanning(g, s0, s, v, todo) && CallResult(g, s, s1, w)
    requires (v, w) in g.edges && w !in s.indices
    ensures v in s1.lowlink && w in s1.lowlink
    ensures Scanning(g, s0, LowerTo(s1, v, s1.lowlink[w]), v, todo - {w})
  {
    var s' := LowerTo(s1, v, s1.lowlink[w]);
    ScanCallLow(g, s0, s, s1, v, todo, w);
    ScanCallBounds(g, s0, s, s1, v, todo, w);
    assert s.stack <= s1.stack && s0.stack + [v] <= s.stack;
  }

  lemma ScanCallLow<N(!new)>(g: Graph<N>, s0: Search<N>, s: Search<N>, s1: Search<N>, v: N, todo: set<N>, w: N)
    requires SearchInvariant(g, s)
    requires Scanning(g, s0, s, v, todo) && CallResult(g, s, s1, w)
    requires (v, w) in g.edges
    ensures v in s1.lowlink && v in s1.indices && s1.lowlink[v] == s.lowlink[v]
    ensures var s' := LowerTo(s1, v, s1.lowlink[w]); LowIsReached(g.edges, s', v, s'.lowlink[v])
  {
    var s' := LowerTo(s1, v, s1.lowlink[w]);
    LowIsReachedLater(g.edges, s, s1, v, s.lowlink[v]);
    if w in s1.stack {
      LowIsReachedBefore(g.edges, s1, v, w, s1.lowlink[w]);
    } else {
      assert s.lowlink[v] <= s.indices[v] < s.index <= s1.lowlink[w];
    }
    LowIsReachedLater(g.edges, s1, s', v, s'.lowlink[v]);
  }

  lemma ScanCallBounds<N(!new)>(g: Graph<N>, s0: Search<N>, s: Search<N>, s1: Search<N>, v: N, todo: set<N>, w: N)
    requires SearchInvariant(g, s)
    requires Scanning(g, s0, s, v, todo) && CallResult(g, s, s1, w)
    requires w !in s.indices && v in s1.lowlink && s1.lowlink[v] == s.lowlink[v]
    ensures var s' := LowerTo(s1, v, s1.lowlink[w]);
            BoundsCrossings(g.edges, s', s0.stack, v, todo - {w}, s'.lowlink[v])
  {
    var s' := LowerTo(s1, v, s1.lowlink[w]);
    PushedMembers(s0.stack, v, s.stack);
    forall y, z | y in s'.stack && y !in s0.stack && (y, z) in g.edges && z in s0.stack && z in s'.indices &&
        !(y == v && z in todo - {w})
      ensures s'.lowlink[v] <= s'.indices[z]
    {
      if y in s.stack {
        assert s.lowlink[v] <= s.indices[z];
      } else {
        assert s1.lowlink[w] <= s1.indices[z];
      }
    }
  }

  lemma ActiveReaches<N(!new)>(g: Graph<N>, s0: Search<N>, s: Search<N>, v: N, todo: set<N>, w: N)
    requires SearchInvariant(g, s) && Scanning(g, s0, s, v, todo) && (v, w) in g.edges
    ensures forall x :: x in s.active ==> Reach(g.edges, x, w)
  {
    PushedMembers(s0.stack, v, s.stack);
    ReachEdge(g.edges, v, w);
    forall x | x in s.active ensures Reach(g.edges, x, w) {
      assert s.indices[x] <= s.indices[v];
      ReachTrans(g.edges, x, v, w);
    }
  }

  // ----- Returning -----

  /** A call whose lowlink is below its own index returns with its node left on the stack. */
  lemma StayKeepsInvariant<N(!new)>(g: Graph<N>, s: Search<N>, v: N, low: nat)
    requires SearchInvariant(g, s) && v in s.active
    requires forall w :: (v, w) in g.edges ==> w in s.indices
    requires low < s.indices[v] && LowIsReached(g.edges, s, v, low)
    ensures SearchInvariant(g, s.(active := s.active - {v}))
  {
    hide IsEmitted, Reach;
    var rest := s.active - {v};
    var u :| u in s.stack && s.indices[u] == low && Reach(g.edges, v, u);
    assert ReachesActive(g.edges, s.active, s.indices, u);
    var a :| a in s.active && s.indices[a] <= s.indices[u] && Reach(g.edges, u, a);
    ReachTrans(g.edges, v, u, a);
    forall y {:trigger ReachesActive(g.edges, rest, s.indices, y)} | y in s.stack
      ensures ReachesActive(g.edges, rest, s.indices, y)
    {
      assert ReachesActive(g.edges, s.active, s.indices, y);
      var x :| x in s.active && s.indices[x] <= s.indices[y] && Reach(g.edges, y, x);
      if x == v {
        ReachTrans(g.edges, y, v, a);
        assert a in rest && s.indices[a] <= s.indices[y];
      } else {
        assert x in rest;
      }
    }
  }

  lemma StayResult<N(!new)>(g: Graph<N>, s0: Search<N>, s: Search<N>, v: N)
    requires SearchInvariant(g, s) && Scanning(g, s0, s, v, {})
    requires s.lowlink[v] < s.indices[v]
    ensures CallResult(g, s0, s.(active := s.active - {v}), v)
  {
    var s' := s.(active := s.active - {v});
    PushedMembers(s0.stack, v, s.stack);
    LowIsReachedLater(g.edges, s, s', v, s.lowlink[v]);
  }

  /** The call on `v` is finished scanning and no edge crosses from `v` or above it to below it. */
  ghost predicate IsRoot<N(!new)>(g: Graph<N>, s: Search<N>, base: seq<N>, v: N) {
    && base + [v] <= s.stack
    && v in s.active && v in s.indices && (forall x :: x in s.active && x != v ==> x in base)
    && (forall w :: (v, w) in g.edges ==> w in s.indices)
    && BoundsCrossings(g.edges, s, base, v, {}, s.indices[v])
  }

  function Top<N>(s: Search<N>, base: seq<N>): seq<N>
    requires |base| <= |s.stack|
  {
    s.stack[|base|..]
  }

  lemma TopMembers<N(!new)>(g: Graph<N>, s: Search<N>, base: seq<N>, v: N)
    requires StackShape(s.indices, s.index, s.stack) && IsRoot(g, s, base, v)
    ensures forall u :: u in s.stack <==> u in base || u in Top(s, base)
    ensures forall u :: u in base ==> u in s.indices && u !in Top(s, base) && s.indices[u] < s.indices[v]
    ensures v in Top(s, base) && forall u :: u in Top(s, base) ==> u in s.indices && s.indices[v] <= s.indices[u]
    ensures NoDuplicates(Top(s, base))
  {
    PushedMembers(base, v, s.stack);
    assert s.stack == base + Top(s, base);
    forall u | u in base ensures s.indices[u] < s.indices[v] && u !in Top(s, base) {
      var i :| 0 <= i < |base| && base[i] == u;
      assert s.stack[i] == u;
    }
  }

  /** Edges out of the top segment stay in it or lead to emitted components. */
  lemma TopEdges<N(!new)>(g: Graph<N>, s: Search<N>, base: seq<N>, v: N, y: N, z: N)
    requires SearchInvariant(g, s) && IsRoot(g, s, base, v)
    requires y in Top(s, base) && (y, z) in g.edges
    ensures z in Top(s, base) || IsEmitted(s.sccs, z)
  {
    TopMembers(g, s, base, v);
    assert z in s.indices;
  }

  lemma EmittedIsClosed<N(!new)>(g: Graph<N>, sccs: seq<seq<N>>, x: N, y: N)
    requires EmittedComponents(g, sccs) && IsEmitted(sccs, x) && (x, y) in g.edges
    ensures IsEmitted(sccs, y)
  {
    var i :| 0 <= i < |sccs| && x in sccs[i];
    assert EmittedBy(sccs, y, i);
  }

  lemma TopStaysInside<N(!new)>(g: Graph<N>, s: Search<N>, base: seq<N>, v: N, x: N, y: N)
    requires SearchInvariant(g, s) && EmittedComponents(g, s.sccs) && IsRoot(g, s, base, v)
    requires x in Top(s, base) && Reach(g.edges, x, y)
    ensures y in Top(s, base) || IsEmitted(s.sccs, y)
  {
    var inside := set u | u in s.indices && (u in Top(s, base) || IsEmitted(s.sccs, u));
    TopMembers(g, s, base, v);
    forall a, b | (a, b) in g.edges && a in inside ensures b in inside {
      if a in Top(s, base) {
        TopEdges(g, s, base, v, a, b);
      } else {
        EmittedIsClosed(g, s.sccs, a, b);
      }
    }
    ReachStaysInside(g.edges, inside, x, y);
  }

  lemma EmittedStaysInside<N(!new)>(g: Graph<N>, s: Search<N>, x: N, y: N)
    requires SearchInvariant(g, s) && EmittedComponents(g, s.sccs)
    requires IsEmitted(s.sccs, x) && Reach(g.edges, x, y)
    ensures IsEmitted(s.sccs, y)
  {
    var emitted := set u | u in s.indices && IsEmitted(s.sccs, u);
    forall a, b | (a, b) in g.edges && a in emitted ensures b in emitted {
      EmittedIsClosed(g, s.sccs, a, b);
    }
    ReachStaysInside(g.edges, emitted, x, y);
  }

  lemma TopReaches<N(!new)>(g: Graph<N>, s: Search<N>, base: seq<N>, v: N, y: N)
    requires SearchInvariant(g, s) && EmittedComponents(g, s.sccs) && IsRoot(g, s, base, v)
    requires y in Top(s, base)
    ensures Reach(g.edges, v, y) && Reach(g.edges, y, v)
  {
    TopMembers(g, s, base, v);
    assert ReachesActive(g.edges, s.active, s.indices, y);
    var x :| x in s.active && s.indices[x] <= s.indices[y] && Reach(g.edges, y, x);
    TopStaysInside(g, s, base, v, y, x);
  }

  /** The nodes above a root of the search form one strongly connected component. */
  lemma TopIsScc<N(!new)>(g: Graph<N>, s: Search<N>, base: seq<N>, v: N)
    requires SearchInvariant(g, s) && EmittedComponents(g, s.sccs) && IsRoot(g, s, base, v)
    ensures IsScc(g, Elements(Top(s, base)))
  {
    var c := Elements(Top(s, base));
    TopMembers(g, s, base, v);
    assert v in c;
    forall x, y | x in c && y in c ensures Reach(g.edges, x, y) {
      TopReaches(g, s, base, v, x);
      TopReaches(g, s, base, v, y);
      ReachTrans(g.edges, x, v, y);
    }
    forall x, y | x in c && y in g.nodes && Reach(g.edges, x, y) && Reach(g.edges, y, x) ensures y in c {
      TopStaysInside(g, s, base, v, x, y);
      if IsEmitted(s.sccs, y) {
        EmittedStaysInside(g, s, y, x);
      }
    }
  }

  /** The snapshot after the nodes above `base` have been popped into the component `scc`. */
  function Pop<N>(s: Search<N>, base: seq<N>, v: N, scc: seq<N>): Search<N> {
    s.(stack := base, sccs := s.sccs + [scc], active := s.active - {v})
  }

  lemma EmittedExtends<N(!new)>(sccs: seq<seq<N>>, scc: seq<N>)
    ensures forall u :: IsEmitted(sccs + [scc], u) <==> IsEmitted(sccs, u) || u in scc
    ensures forall u, k :: EmittedBy(sccs, u, k) ==> EmittedBy(sccs + [scc], u, k)
    ensures forall u :: IsEmitted(sccs, u) || u in scc ==> EmittedBy(sccs + [scc], u, |sccs|)
  {
    forall u, k | EmittedBy(sccs, u, k) ensures EmittedBy(sccs + [scc], u, k) {
      var j :| 0 <= j <= k && j < |sccs| && u in sccs[j];
      assert u in (sccs + [scc])[j];
    }
    forall u | IsEmitted(sccs, u) || u in scc
      ensures IsEmitted(sccs + [scc], u) && EmittedBy(sccs + [scc], u, |sccs|)
    {
      var i :| 0 <= i < |sccs + [scc]| && u in (sccs + [scc])[i] by {
        if u in scc {
          assert u in (sccs + [scc])[|sccs|];
        } else {
          var i :| 0 <= i < |sccs| && u in sccs[i];
          assert u in (sccs + [scc])[i];
        }
      }
    }
  }

  lemma ShapeOfPrefix<N(!new)>(indices: map<N, nat>, index: nat, stack: seq<N>, base: seq<N>)
    requires StackShape(indices, index, stack) && base <= stack
    ensures StackShape(indices, index, base)
  {
    assert forall i :: 0 <= i < |base| ==> base[i] == stack[i];
  }

  /** Below a root every node still reaches an active call other than the root. */
  lemma PopKeepsReaching<N(!new)>(g: Graph<N>, s: Search<N>, base: seq<N>, v: N, y: N)
    requires SearchInvariant(g, s) && IsRoot(g, s, base, v) && y in base
    ensures ReachesActive(g.edges, s.active - {v}, s.indices, y)
  {
    hide StackShape, BoundsCrossings, Reach;
    TopMembers(g, s, base, v);
    assert ReachesActive(g.edges, s.active, s.indices, y);
    var x :| x in s.active && s.indices[x] <= s.indices[y] && Reach(g.edges, y, x);
    assert x in s.active - {v};
  }

  lemma PopKeepsInvariant<N(!new)>(g: Graph<N>, s: Search<N>, base: seq<N>, v: N, scc: seq<N>)
    requires SearchInvariant(g, s) && IsRoot(g, s, base, v)
    requires forall u :: u in scc <==> u in Top(s, base)
    ensures SearchInvariant(g, Pop(s, base, v, scc))
  {
    hide StackShape, BoundsCrossings, Reach, ReachesActive, Top, IsEmitted, EmittedBy;
    TopMembers(g, s, base, v);
    PushedMembers(base, v, s.stack);
    ShapeOfPrefix(s.indices, s.index, s.stack, base);
    EmittedExtends(s.sccs, scc);
    forall y {:trigger ReachesActive(g.edges, s.active - {v}, s.indices, y)} | y in base
      ensures ReachesActive(g.edges, s.active - {v}, s.indices, y)
    {
      PopKeepsReaching(g, s, base, v, y);
    }
  }

  lemma PopEmitsScc<N(!new)>(g: Graph<N>, s: Search<N>, base: seq<N>, v: N, scc: seq<N>)
    requires SearchInvariant(g, s) && EmittedComponents(g, s.sccs) && IsRoot(g, s, base, v)
    requires forall u :: u in scc <==> u in Top(s, base)
    ensures IsScc(g, Elements(scc))
    ensures forall u :: u in scc ==> !IsEmitted(s.sccs, u)
  {
    TopIsScc(g, s, base, v);
    TopMembers(g, s, base, v);
    assert Elements(scc) == Elements(Top(s, base));
  }

  lemma PopEmitsComponent<N(!new)>(g: Graph<N>, s: Search<N>, base: seq<N>, v: N, scc: seq<N>)
    requires SearchInvariant(g, s) && EmittedComponents(g, s.sccs) && IsRoot(g, s, base, v)
    requires NoDuplicates(scc) && forall u :: u in scc <==> u in Top(s, base)
    ensures EmittedComponents(g, s.sccs + [scc])
  {
    hide IsScc, SearchInvariant, IsRoot;
    var sccs' := s.sccs + [scc];
    PopEmitsScc(g, s, base, v, scc);
    EmittedExtends(s.sccs, scc);
    forall i, x, y | 0 <= i < |sccs'| && x in sccs'[i] && (x, y) in g.edges
      ensures EmittedBy(sccs', y, i)
    {
      if i < |s.sccs| {
        assert EmittedBy(s.sccs, y, i);
      } else {
        TopEdges(g, s, base, v, x, y);
      }
    }
  }

  lemma PopResult<N(!new)>(g: Graph<N>, s0: Search<N>, s: Search<N>, v: N, scc: seq<N>)
    requires SearchInvariant(g, s) && Scanning(g, s0, s, v, {}) && v !in s0.indices
    requires s.lowlink[v] == s.indices[v]
    ensures IsRoot(g, s, s0.stack, v)
    ensures CallResult(g, s0, Pop(s, s0.stack, v, scc), v)
  {
    PushedMembers(s0.stack, v, s.stack);
  }

  /** The facts about a scanning call that its code needs. */
  lemma ScanFacts<N(!new)>(g: Graph<N>, s0: Search<N>, s: Search<N>, v: N, todo: set<N>)
    requires SearchInvariant(g, s) && Scanning(g, s0, s, v, todo)
    ensures v in s.indices && v in s.lowlink && v in s.active && s.lowlink[v] <= s.indices[v]
    ensures s0.stack + [v] <= s.stack && NoDuplicates(s.stack)
    ensures v !in s0.indices && s0.indices.Keys < s.indices.Keys <= g.nodes
    ensures s.lowlink.Keys == s.indices.Keys && s.active - {v} == s0.active
    ensures forall w :: (v, w) in g.edges && w !in todo ==> w in s.indices
    ensures LowIsReached(g.edges, s, v, s.lowlink[v])
  {
  }

  lemma PoppedIsTop<N(!new)>(full: seq<N>, base: seq<N>, v: N, rest: seq<N>, scc: seq<N>)
    requires base + [v] <= full && NoDuplicates(full)
    requires |base| <= |rest| < |full| && rest == full[..|rest|] && full[|rest|] == v
    requires |scc| == |full| - |rest| && forall i :: 0 <= i < |scc| ==> scc[i] == full[|full| - 1 - i]
    ensures rest == base && NoDuplicates(scc)
    ensures forall u :: u in scc <==> u in full[|base|..]
  {
    PushedMembers(base, v, full);
    forall u | u in full[|base|..] ensures u in scc {
      var i :| |base| <= i < |full| && full[i] == u;
      assert scc[|full| - 1 - i] == u;
    }
  }

  // ----- The detector -----

  class TarjanCycleDetector<N(==, !new)> {
    const graph: Graph<N>
    var index: nat
    var indices: map<N, nat>
    var lowlink: map<N, nat>
    var stack: seq<N>
    var onStack: set<N>
    var sccs: seq<seq<N>>
    ghost var active: set<N>

    constructor (g: Graph<N>)
      requires WellFormed(g)
      ensures graph == g && Valid() && View() == Search(0, map[], map[], [], [], {})
    {
      graph := g;
      index, indices, lowlink, stack, onStack, sccs := 0, map[], map[], [], {}, [];
      active := {};
    }

    ghost function View(): Search<N>
      reads this
    {
      Search(index, indices, lowlink, stack, sccs, active)
    }

    ghost predicate Valid()
      reads this
    {
      && WellFormed(graph)
      && SearchInvariant(graph, View())
      && EmittedComponents(graph, sccs)
      && onStack == Elements(stack)
    }

    /** Explores everything reachable from `node` and emits the components it closes. */
    method StrongConnect(node: N)
      requires Valid()
      requires node in graph.nodes && node !in indices
      requires forall x :: x in active ==> Reach(graph.edges, x, node)
      modifies this
      ensures Valid() && CallResult(graph, old(View()), View(), node)
      decreases graph.nodes - indices.Keys, 0
    {
      hide SearchInvariant, Scanning, EmittedComponents, CallResult, Reach, NoDuplicates;
      ghost var s0 := View();
      var todo := set w | w in graph.nodes && (node, w) in graph.edges;
      EnterKeepsInvariant(graph, s0, node);
      EnterStartsScanning(graph, s0, node, todo);
      indices := indices[node := index];
      lowlink := lowlink[node := index];
      index := index + 1;
      stack := stack + [node];
      onStack := onStack + {node};
      active := active + {node};

      while todo != {}
        invariant Valid() && Scanning(graph, s0, View(), node, todo)
        invariant old(indices.Keys) < indices.Keys <= graph.nodes
        invariant forall w :: w in todo ==> (node, w) in graph.edges
      {
        var successor :| successor in todo;
        Examine(node, successor, s0, todo);
        todo := todo - {successor};
        ScanFacts(graph, s0, View(), node, todo);
      }
      FinishCall(node, s0);
    }

    /** Examines one successor of `node`, exploring it first if it is new. */
    method Examine(node: N, successor: N, ghost s0: Search<N>, ghost todo: set<N>)
      requires Valid() && Scanning(graph, s0, View(), node, todo)
      requires successor in todo && (node, successor) in graph.edges
      modifies this
      ensures Valid() && Scanning(graph, s0, View(), node, todo - {successor})
      decreases graph.nodes - indices.Keys, 1
    {
      hide SearchInvariant, Scanning, EmittedComponents, CallResult, Reach, NoDuplicates;
      ghost var s := View();
      ScanFacts(graph, s0, s, node, todo);
      if successor !in indices {
        ActiveReaches(graph, s0, s, node, todo, successor);
        StrongConnect(successor);
        ScanCall(graph, s0, s, View(), node, todo, successor);
        LowerKeepsInvariant(graph, View(), node, lowlink[successor]);
        lowlink := lowlink[node := Min(lowlink[node], lowlink[successor])];
      } else if successor in onStack {
        ScanOnStack(graph, s0, s, node, todo, successor);
        LowerKeepsInvariant(graph, s, node, indices[successor]);
        lowlink := lowlink[node := Min(lowlink[node], indices[successor])];
      } else {
        ScanOffStack(graph, s0, s, node, todo, successor);
      }
    }

    /** The end of the call on `node`: its component is popped, or it stays on the stack. */
    method FinishCall(node: N, ghost s0: Search<N>)
      requires Valid() && Scanning(graph, s0, View(), node, {})
      modifies this
      ensures Valid() && CallResult(graph, s0, View(), node)
    {
      hide SearchInvariant, Scanning, EmittedComponents, CallResult, Reach, NoDuplicates, LowIsReached, IsRoot;
      ghost var s := View();
      ScanFacts(graph, s0, s, node, {});
      if lowlink[node] == indices[node] {
        var scc := PopComponent(node, s0.stack);
        PopResult(graph, s0, s, node, scc);
        PopKeepsInvariant(graph, s, s0.stack, node, scc);
        PopEmitsComponent(graph, s, s0.stack, node, scc);
        sccs := sccs + [scc];
      } else {
        StayKeepsInvariant(graph, s, node, lowlink[node]);
        StayResult(graph, s0, s, node);
      }
      active := active - {node};
    }

    /** Pops the stack down to and including `node`. */
    method PopComponent(node: N, ghost base: seq<N>) returns (scc: seq<N>)
      requires base + [node] <= stack && NoDuplicates(stack) && onStack == Elements(stack)
      modifies this`stack, this`onStack
      ensures stack == base && onStack == Elements(stack)
      ensures NoDuplicates(scc) && forall u :: u in scc <==> u in old(stack)[|base|..]
    {
      PushedMembers(base, node, stack);
      ghost var full := stack;
      scc := [];
      while true
        invariant |base| < |stack| <= |full| && stack == full[..|stack|]
        invariant onStack == Elements(stack)
        invariant |scc| == |full| - |stack| && forall i :: 0 <= i < |scc| ==> scc[i] == full[|full| - 1 - i]
        decreases |stack|
      {
        var successor := stack[|stack| - 1];
        stack := stack[..|stack| - 1];
        onStack := onStack - {successor};
        scc := scc + [successor];
        if successor == node {
          break;
        }
      }
      PoppedIsTop(full, base, node, stack, scc);
    }
  }

  // ----- The answer -----

  /** The components with more than one node, in order. */
  function LargeComponents<N(!new)>(sccs: seq<seq<N>>): (r: seq<seq<N>>)
    ensures forall c :: c in r <==> c in sccs && |c| > 1
  {
    if sccs == [] then []
    else
      var rest := LargeComponents(sccs[1..]);
      if |sccs[0]| > 1 then [sccs[0]] + rest else rest
  }

  /** No component reaches a component listed after it; in particular no two share a node. */
  ghost predicate ReverseTopological<N(!new)>(edges: set<(N, N)>, sccs: seq<seq<N>>) {
    forall i, j, x, y :: 0 <= i < j < |sccs| && x in sccs[i] && y in sccs[j] ==> !Reach(edges, x, y)
  }

  lemma EmittedReach<N(!new)>(g: Graph<N>, sccs: seq<seq<N>>, i: nat, x: N, y: N)
    requires WellFormed(g) && EmittedComponents(g, sccs)
    requires i < |sccs| && x in sccs[i] && Reach(g.edges, x, y)
    ensures EmittedBy(sccs, y, i)
  {
    var upTo := set u | u in g.nodes && EmittedBy(sccs, u, i);
    forall a, b | (a, b) in g.edges && a in upTo ensures b in upTo {
      var j :| 0 <= j <= i && j < |sccs| && a in sccs[j];
      assert EmittedBy(sccs, b, j);
    }
    assert x in Elements(sccs[i]);
    assert EmittedBy(sccs, x, i);
    ReachStaysInside(g.edges, upTo, x, y);
  }

  lemma EmittedInReverseOrder<N(!new)>(g: Graph<N>, sccs: seq<seq<N>>)
    requires WellFormed(g) && EmittedComponents(g, sccs)
    ensures ReverseTopological(g.edges, sccs)
  {
    forall i, j, x, y | 0 <= i < j < |sccs| && x in sccs[i] && y in sccs[j] ensures !Reach(g.edges, x, y) {
      assert !EmittedBy(sccs, y, i);
      if Reach(g.edges, x, y) {
        EmittedReach(g, sccs, i, x, y);
      }
    }
  }

  /** Dropping the one-node components keeps the order of the others. */
  lemma {:induction false} LargeComponentsOrdered<N(!new)>(edges: set<(N, N)>, sccs: seq<seq<N>>)
    requires ReverseTopological(edges, sccs)
    ensures ReverseTopological(edges, LargeComponents(sccs))
  {
    hide Reach;
    if sccs == [] {
    } else {
      var rest := sccs[1..];
      assert forall i :: 0 <= i < |rest| ==> rest[i] == sccs[i + 1];
      LargeComponentsOrdered(edges, rest);
      var large := LargeComponents(rest);
      if |sccs[0]| > 1 {
        forall j, x, y | 0 <= j < |large| && x in sccs[0] && y in large[j] ensures !Reach(edges, x, y) {
          assert large[j] in sccs[1..];
          var k :| 0 <= k < |rest| && rest[k] == large[j];
          assert y in sccs[k + 1];
        }
      }
    }
  }

  /** Once every node is emitted, the emitted lists are all the components there are. */
  lemma EveryComponentEmitted<N(!new)>(g: Graph<N>, sccs: seq<seq<N>>, c: set<N>)
    requires EmittedComponents(g, sccs) && IsScc(g, c)
    requires forall v :: v in g.nodes ==> IsEmitted(sccs, v)
    ensures exists s :: s in sccs && Elements(s) == c && |s| == |c|
  {
    var v :| v in c;
    var i :| 0 <= i < |sccs| && v in sccs[i];
    SccsDisjoint(g, c, Elements(sccs[i]), v);
    NoDuplicatesFits(sccs[i], c);
    assert sccs[i] in sccs;
  }

  /** The cycle groups of a graph: exactly its strongly connected components with more than one node,
      listed without repetition and in reverse topological order.  `all` is the list before the
      one-node components are filtered out. */
  method FindStronglyConnectedComponents<N(==, !new)>(g: Graph<N>)
    returns (components: seq<seq<N>>, ghost all: seq<seq<N>>)
    requires WellFormed(g)
    ensures forall c: set<N> :: IsScc(g, c) && |c| > 1 <==> exists s :: s in components && Elements(s) == c
    ensures forall s :: s in components ==> NoDuplicates(s)
    ensures ReverseTopological(g.edges, components)
    ensures components == LargeComponents(all) && ReverseTopological(g.edges, all)
    ensures forall v :: v in g.nodes <==> IsEmitted(all, v)
  {
    var detector := new TarjanCycleDetector(g);
    var todo := g.nodes;
    while todo != {}
      invariant fresh(detector) && detector.graph == g && detector.Valid() && detector.active == {}
      invariant todo <= g.nodes
      invariant forall v :: v in g.nodes && v !in todo ==> v in detector.indices
    {
      var node :| node in todo;
      todo := todo - {node};
      if node !in detector.indices {
        detector.StrongConnect(node);
      }
    }
    ghost var s := detector.View();
    all := detector.sccs;
    components := LargeComponents(detector.sccs);
    NothingLeftOnStack(g, s);
    EmittedInReverseOrder(g, all);
    LargeComponentsOrdered(g.edges, all);
    ReportsExactly(g, all, components);
  }

  lemma NothingLeftOnStack<N(!new)>(g: Graph<N>, s: Search<N>)
    requires SearchInvariant(g, s) && s.active == {} && g.nodes <= s.indices.Keys
    ensures forall v :: v in g.nodes <==> IsEmitted(s.sccs, v)
  {
    forall v | v in g.nodes ensures IsEmitted(s.sccs, v) {
      assert v in s.stack ==> ReachesActive(g.edges, s.active, s.indices, v);
    }
  }

  lemma ReportsExactly<N(!new)>(g: Graph<N>, all: seq<seq<N>>, components: seq<seq<N>>)
    requires EmittedComponents(g, all) && components == LargeComponents(all)
    requires forall v :: v in g.nodes ==> IsEmitted(all, v)
    ensures forall c: set<N> :: IsScc(g, c) && |c| > 1 <==> exists s :: s in components && Elements(s) == c
    ensures forall s :: s in components ==> NoDuplicates(s)
  {
    forall s | s in components ensures NoDuplicates(s) && IsScc(g, Elements(s)) && |Elements(s)| > 1 {
      var i :| 0 <= i < |all| && all[i] == s;
      NoDuplicatesFits(s, Elements(s));
    }
    forall c: set<N> | IsScc(g, c) && |c| > 1 ensures exists s :: s in components && Elements(s) == c {
      EveryComponentEmitted(g, all, c);
    }
  }

  /** A group of more than one node exists exactly when some cycle visits two different nodes: the
      detector reports something if and only if there is a cycle other than a self-loop. */
  lemma LargeComponentIffCycle<N(!new)>(g: Graph<N>)
    requires WellFormed(g)
    ensures (exists c: set<N> :: IsScc(g, c) && |c| > 1)
            <==> (exists p, k :: IsCycle(g.edges, p) && 0 <= k < |p| && p[k] != p[0])
  {
    forall c: set<N> | IsScc(g, c) && |c| > 1
      ensures exists p, k :: IsCycle(g.edges, p) && 0 <= k < |p| && p[k] != p[0]
    {
      var x :| x in c;
      assert |c - {x}| == |c| - 1;
      var y :| y in c - {x};
      var p :| WalkBetween(g.edges, p, x, y);
      var q :| WalkBetween(g.edges, q, y, x);
      assert IsCycle(g.edges, p + q[1..]);
      assert (p + q[1..])[|p| - 1] == y;
    }
    forall p: seq<N>, k | IsCycle(g.edges, p) && 0 <= k < |p| && p[k] != p[0]
      ensures exists c: set<N> :: IsScc(g, c) && |c| > 1
    {
      assert WalkBetween(g.edges, p[..k + 1], p[0], p[k]);
      assert WalkBetween(g.edges, p[k..], p[k], p[0]);
      assert (p[0], p[1]) in g.edges;
      var c := ComponentOf(g, p[0]);
      assert p[k] in c by {
        ReachStaysInside(g.edges, g.nodes, p[0], p[k]);
      }
      assert {p[0], p[k]} <= c;
      SubsetSize({p[0], p[k]}, c);
    }
  }

  lemma ComponentOf<N(!new)>(g: Graph<N>, v: N) returns (c: set<N>)
    requires v in g.nodes
    ensures IsScc(g, c) && forall u :: u in c <==> u in g.nodes && Reach(g.edges, v, u) && Reach(g.edges, u, v)
  {
    hide Reach;
    c := set u | u in g.nodes && Reach(g.edges, v, u) && Reach(g.edges, u, v);
    ReachRefl(g.edges, v);
    assert v in c;
    forall x, y | x in c && y in c ensures Reach(g.edges, x, y) {
      ReachTrans(g.edges, x, v, y);
    }
    forall x, y | x in c && y in g.nodes && Reach(g.edges, x, y) && Reach(g.edges, y, x) ensures y in c {
      ReachTrans(g.edges, v, x, y);
      ReachTrans(g.edges, y, x, v);
    }
  }
}
