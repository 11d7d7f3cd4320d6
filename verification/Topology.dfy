/** The topology manager's placement of agents on nodes: discovery updates, migrations, round-robin
    balancing, eviction under pressure and failover. */
module Topology {
  import opened Graphs

  datatype NodeState = NodeState(agents: set<string>, resources: map<string, real>)

  datatype Update = Update(nodes: seq<string>, links: seq<(string, string)>, removed: seq<string>)

  /** How the migration request ended: accepted by the target, refused, or not answered. */
  datatype Response = Accepted | Refused | Raised

  datatype Outcome = Done | UnknownNode(node: string) | Interrupted

  type Placement = map<string, NodeState>

  const IDLE := NodeState({}, map[])

  // ----- Placements -----

  function AllAgents(p: Placement): set<string> {
    set n, a | n in p && a in p[n].agents :: a
  }

  /** No agent is on two nodes. */
  ghost predicate Partitioned(p: Placement) {
    forall n, m, a :: n in p && m in p && a in p[n].agents && a in p[m].agents ==> n == m
  }

  /** `agent` taken off `source`, then put on `target`. */
  function Move(p: Placement, agent: string, source: string, target: string): Placement
    requires source in p && target in p
  {
    var without := p[source := p[source].(agents := p[source].agents - {agent})];
    without[target := without[target].(agents := without[target].agents + {agent})]
  }

  /** What no migration changes: the nodes, their resources, and the agents as a whole. */
  ghost predicate SameCluster(p: Placement, q: Placement) {
    && q.Keys == p.Keys && AllAgents(q) == AllAgents(p)
    && forall n :: n in p ==> q[n].resources == p[n].resources
  }

  lemma MovedMembers(p: Placement, agent: string, source: string, target: string)
    requires Partitioned(p) && source in p && target in p && agent in p[source].agents
    ensures var q := Move(p, agent, source, target);
            q.Keys == p.Keys && forall n, a :: n in p ==>
              (a in q[n].agents <==> if a == agent then n == target else a in p[n].agents)
  {
  }

  lemma MoveKeepsPartition(p: Placement, agent: string, source: string, target: string)
    requires Partitioned(p) && source in p && target in p && agent in p[source].agents
    ensures Partitioned(Move(p, agent, source, target)) && SameCluster(p, Move(p, agent, source, target))
    ensures agent in Move(p, agent, source, target)[target].agents
    ensures forall n :: n in p ==> Move(p, agent, source, target)[n].agents - {agent} == p[n].agents - {agent}
  {
    var q := Move(p, agent, source, target);
    MovedMembers(p, agent, source, target);
    assert forall n :: n in p ==> q[n].resources == p[n].resources;
    hide Move;
    forall a ensures a in AllAgents(q) <==> a in AllAgents(p) {
      if a in AllAgents(p) {
        var n :| n in p && a in p[n].agents;
        assert a in q[n].agents || a in q[target].agents;
      }
      if a in AllAgents(q) {
        var n :| n in q && a in q[n].agents;
        assert a in p[n].agents || a in p[source].agents;
      }
    }
  }

  /** One whole migration, whatever its response. */
  datatype Migration = Migration(agent: string, target: string, response: Response)

  ghost function SourceOf(p: Placement, agent: string): (n: string)
    requires agent in AllAgents(p)
    ensures n in p && agent in p[n].agents
  {
    var n :| n in p && agent in p[n].agents;
    n
  }

  /** A migration moves the agent if it is placed and the target accepts; otherwise it changes nothing. */
  ghost function Migrate(p: Placement, m: Migration): Placement
    requires m.target in p
  {
    if m.agent in AllAgents(p) && m.response.Accepted? then Move(p, m.agent, SourceOf(p, m.agent), m.target) else p
  }

  ghost predicate IsStep(p: Placement, m: Migration, q: Placement) {
    m.target in p && q == Migrate(p, m)
  }

  ghost predicate IsRun(ps: seq<Placement>, ms: seq<Migration>) {
    && |ps| == |ms| + 1
    && forall i :: 0 <= i < |ms| ==> IsStep(ps[i], ms[i], ps[i + 1])
  }

  /** Over any interleaving of migrations, from balancing, eviction or failover, accepted or not, every
      agent stays on exactly one node and none appears or disappears. */
  lemma {:induction false} MigrationsKeepAgents(ps: seq<Placement>, ms: seq<Migration>, k: nat)
    requires IsRun(ps, ms) && Partitioned(ps[0]) && k < |ps|
    ensures Partitioned(ps[k]) && SameCluster(ps[0], ps[k])
    ensures forall a :: a in AllAgents(ps[0]) ==> exists n :: n in ps[k] && a in ps[k][n].agents
  {
    if k == 0 {
    } else {
      MigrationsKeepAgents(ps, ms, k - 1);
      var p, m := ps[k - 1], ms[k - 1];
      assert IsStep(p, m, ps[k - 1 + 1]);
      if m.agent in AllAgents(p) && m.response.Accepted? {
        MoveKeepsPartition(p, m.agent, SourceOf(p, m.agent), m.target);
      }
    }
    forall a | a in AllAgents(ps[0]) ensures exists n :: n in ps[k] && a in ps[k][n].agents {
      assert a in AllAgents(ps[k]);
    }
  }

  // ----- Balance -----

  /** Agents dealt to nodes in turn. */
  ghost predicate DealtInTurn(p: Placement, nodes: seq<string>, agents: seq<string>, k: nat)
    requires nodes != []
  {
    forall i :: 0 <= i < k && i < |agents| ==> nodes[i % |nodes|] in p && agents[i] in p[nodes[i % |nodes|]].agents
  }

  /** Turn number `i` falls to a node that is not tracked. */
  ghost predicate TurnFallsOutside(p: Placement, nodes: seq<string>, i: nat) {
    nodes != [] && nodes[i % |nodes|] !in p
  }

  /** How many of the first `m` turns, dealt to `n` nodes, fall to node `k`. */
  function Turns(m: nat, n: nat, k: nat): nat
    requires k < n
  {
    if m == 0 then 0 else Turns(m - 1, n, k) + if (m - 1) % n == k then 1 else 0
  }

  lemma {:induction false} MulGap(a: nat, b: nat, n: nat)
    requires a > b
    ensures n * a >= n * b + n
  {
    if a == b + 1 {
    } else {
      MulGap(a - 1, b, n);
      assert n * a == n * (a - 1) + n;
    }
  }

  lemma DivUnique(m: nat, n: nat, q: nat, r: nat)
    requires n > 0 && m == n * q + r && r < n
    ensures m / n == q && m % n == r
  {
    var q', r' := m / n, m % n;
    assert m == n * q' + r' && 0 <= r' < n;
    if q > q' {
      MulGap(q, q', n);
    } else if q < q' {
      MulGap(q', q, n);
    }
  }

  lemma DivStep(m: nat, n: nat)
    requires n > 0
    ensures (m + 1) / n == m / n + (if m % n == n - 1 then 1 else 0)
    ensures (m + 1) % n == (if m % n == n - 1 then 0 else m % n + 1)
  {
    var q, r := m / n, m % n;
    assert m == n * q + r;
    if r == n - 1 {
      assert n * (q + 1) == n * q + n;
      DivUnique(m + 1, n, q + 1, 0);
    } else {
      DivUnique(m + 1, n, q, r + 1);
    }
  }

  lemma {:induction false} TurnsFair(m: nat, n: nat, k: nat)
    requires k < n
    ensures Turns(m, n, k) == m / n + (if k < m % n then 1 else 0)
  {
    if m == 0 {
      DivUnique(0, n, 0, 0);
    } else {
      TurnsFair(m - 1, n, k);
      DivStep(m - 1, n);
    }
  }

  function DealtTo(agents: seq<string>, n: nat, k: nat): set<string>
    requires k < n
  {
    set i | 0 <= i < |agents| && i % n == k :: agents[i]
  }

  lemma DealtToMore(agents: seq<string>, n: nat, k: nat, m: nat)
    requires k < n && m < |agents| && NoDuplicates(agents)
    ensures agents[m] !in DealtTo(agents[..m], n, k)
    ensures DealtTo(agents[..m + 1], n, k) == DealtTo(agents[..m], n, k) + if m % n == k then {agents[m]} else {}
  {
    var now := agents[..m + 1];
    forall a | a in DealtTo(now, n, k) ensures a in DealtTo(agents[..m], n, k) || (m % n == k && a == agents[m]) {
      var i :| 0 <= i < |now| && i % n == k && now[i] == a;
      assert i < m ==> agents[..m][i] == a;
    }
    forall a | a in DealtTo(agents[..m], n, k) ensures a in DealtTo(now, n, k) && a != agents[m] {
      var i :| 0 <= i < m && i % n == k && agents[..m][i] == a;
      assert now[i] == a;
    }
    assert now[m] == agents[m];
  }

  lemma {:induction false} DealtCount(agents: seq<string>, n: nat, k: nat, m: nat)
    requires k < n && NoDuplicates(agents) && m <= |agents|
    ensures |DealtTo(agents[..m], n, k)| == Turns(m, n, k)
  {
    if m == 0 {
      assert DealtTo(agents[..0], n, k) == {};
    } else {
      hide DealtTo, NoDuplicates;
      DealtCount(agents, n, k, m - 1);
      DealtToMore(agents, n, k, m - 1);
    }
  }

  lemma DealtHolds(p: Placement, nodes: seq<string>, agents: seq<string>, k: nat)
    requires nodes != [] && NoDuplicates(nodes) && forall n :: n in nodes ==> n in p
    requires Partitioned(p) && DealtInTurn(p, nodes, agents, |agents|)
    requires forall a :: a in agents <==> a in AllAgents(p)
    requires k < |nodes|
    ensures p[nodes[k]].agents == DealtTo(agents, |nodes|, k)
  {
    forall a | a in p[nodes[k]].agents ensures a in DealtTo(agents, |nodes|, k) {
      assert a in AllAgents(p);
      var i :| 0 <= i < |agents| && agents[i] == a;
      assert nodes[i % |nodes|] == nodes[k];
    }
  }

  /** Once every agent sits where its turn put it, any two nodes differ by at most one agent. */
  lemma DealtIsBalanced(p: Placement, nodes: seq<string>, agents: seq<string>, n: string, m: string)
    requires nodes != [] && NoDuplicates(nodes) && forall v :: v in nodes <==> v in p
    requires Partitioned(p) && DealtInTurn(p, nodes, agents, |agents|) && NoDuplicates(agents)
    requires forall a :: a in agents <==> a in AllAgents(p)
    requires n in p && m in p
    ensures |p[n].agents| <= |p[m].agents| + 1
  {
    var j :| 0 <= j < |nodes| && nodes[j] == n;
    var k :| 0 <= k < |nodes| && nodes[k] == m;
    DealtHolds(p, nodes, agents, j);
    DealtHolds(p, nodes, agents, k);
    DealtCount(agents, |nodes|, j, |agents|);
    DealtCount(agents, |nodes|, k, |agents|);
    assert agents[..|agents|] == agents;
    TurnsFair(|agents|, |nodes|, j);
    TurnsFair(|agents|, |nodes|, k);
  }

  /** How many of the first `k` agents are not where their turn puts them. */
  function Misplaced(p: Placement, nodes: seq<string>, agents: seq<string>, k: nat): nat
    requires k <= |agents|
  {
    if k == 0 then 0
    else
      var inPlace := nodes != [] &&
        var n := nodes[(k - 1) % |nodes|]; n in p && agents[k - 1] in p[n].agents;
      Misplaced(p, nodes, agents, k - 1) + if inPlace then 0 else 1
  }

  lemma MisplacedStep(p: Placement, nodes: seq<string>, agents: seq<string>, i: nat)
    requires i < |agents| && nodes != [] && nodes[i % |nodes|] in p
    ensures Misplaced(p, nodes, agents, i + 1)
         == Misplaced(p, nodes, agents, i) + if agents[i] in p[nodes[i % |nodes|]].agents then 0 else 1
  {
  }

  /** The agents from number `i` on are where they were. */
  ghost predicate StillPlaced(p: Placement, q: Placement, agents: seq<string>, i: nat) {
    forall j, n :: i <= j < |agents| && n in p && n in q ==> (agents[j] in q[n].agents <==> agents[j] in p[n].agents)
  }

  lemma StillPlacedStep(p: Placement, q: Placement, r: Placement, agents: seq<string>, i: nat)
    requires i < |agents| && NoDuplicates(agents) && p.Keys == q.Keys == r.Keys && StillPlaced(p, q, agents, i)
    requires forall n :: n in r ==> r[n].agents - {agents[i]} == q[n].agents - {agents[i]}
    ensures StillPlaced(p, r, agents, i + 1)
  {
    forall j, n | i + 1 <= j < |agents| && n in p && n in r
      ensures agents[j] in r[n].agents <==> agents[j] in p[n].agents
    {
      assert agents[j] in r[n].agents - {agents[i]} <==> agents[j] in r[n].agents;
      assert agents[j] in q[n].agents - {agents[i]} <==> agents[j] in q[n].agents;
    }
  }

  lemma DealtMeansBalanced(p: Placement, nodes: seq<string>, agents: seq<string>)
    requires NoDuplicates(nodes) && (forall v :: v in nodes <==> v in p) && Partitioned(p) && NoDuplicates(agents)
    requires nodes != [] ==> DealtInTurn(p, nodes, agents, |agents|)
    requires forall a :: a in agents <==> a in AllAgents(p)
    ensures forall n, m :: n in p && m in p ==> |p[n].agents| <= |p[m].agents| + 1
  {
    hide DealtInTurn, AllAgents, Partitioned, NoDuplicates;
    forall n, m | n in p && m in p ensures |p[n].agents| <= |p[m].agents| + 1 {
      DealtIsBalanced(p, nodes, agents, n, m);
    }
  }

  lemma NothingDealt(p: Placement, nodes: seq<string>, agents: seq<string>)
    ensures nodes != [] ==> DealtInTurn(p, nodes, agents, 0)
    ensures Misplaced(p, nodes, agents, 0) == 0
  {
  }

  lemma TurnTarget(p: Placement, nodes: seq<string>, i: nat)
    requires nodes != []
    ensures TurnFallsOutside(p, nodes, i) <==> nodes[i % |nodes|] !in p
    ensures nodes[i % |nodes|] in nodes
  {
  }

  // ----- The least loaded node -----

  function Pressure(s: NodeState, resource: string): real {
    if resource in s.resources then s.resources[resource] else 0.0
  }

  /** The first of the tracked nodes, in tracking order, with the least pressure. */
  ghost predicate IsOptimal(p: Placement, order: seq<string>, resource: string, n: string)
    requires forall v :: v in order ==> v in p
  {
    exists k :: 0 <= k < |order| && order[k] == n
      && (forall j :: 0 <= j < |order| ==> Pressure(p[n], resource) <= Pressure(p[order[j]], resource))
      && (forall j :: 0 <= j < k ==> Pressure(p[n], resource) < Pressure(p[order[j]], resource))
  }

  /** No tracked node has less of the resource than the optimal one; what is not reported counts as nothing. */
  lemma OptimalMeans(p: Placement, order: seq<string>, resource: string, best: string)
    requires (forall v :: v in order <==> v in p) && IsOptimal(p, order, resource, best)
    ensures best in p && forall n :: n in p ==>
              (if resource in p[best].resources then p[best].resources[resource] else 0.0)
              <= (if resource in p[n].resources then p[n].resources[resource] else 0.0)
  {
    forall n | n in p ensures Pressure(p[best], resource) <= Pressure(p[n], resource) {
      var j :| 0 <= j < |order| && order[j] == n;
    }
  }

  /** Migrations do not change which node is optimal. */
  lemma OptimalIsStable(p: Placement, q: Placement, order: seq<string>, resource: string, n: string, m: string)
    requires SameCluster(p, q) && forall v :: v in order ==> v in p
    requires IsOptimal(p, order, resource, n) && IsOptimal(q, order, resource, m)
    ensures n == m
  {
    assert forall v :: v in order ==> Pressure(p[v], resource) == Pressure(q[v], resource);
    var j :| 0 <= j < |order| && order[j] == n
      && (forall i :: 0 <= i < |order| ==> Pressure(p[n], resource) <= Pressure(p[order[i]], resource))
      && (forall i :: 0 <= i < j ==> Pressure(p[n], resource) < Pressure(p[order[i]], resource));
    var k :| 0 <= k < |order| && order[k] == m
      && (forall i :: 0 <= i < |order| ==> Pressure(q[m], resource) <= Pressure(q[order[i]], resource))
      && (forall i :: 0 <= i < k ==> Pressure(q[m], resource) < Pressure(q[order[i]], resource));
    assert order[j] in order && order[k] in order;
  }

  // ----- Discovery updates -----

  function Ends(links: seq<(string, string)>): set<string> {
    (set l | l in links :: l.0) + (set l | l in links :: l.1)
  }

  /** The placement after an update: new nodes start idle, removed ones are gone, the rest keep their state. */
  function Updated(p: Placement, nodes: set<string>, removed: set<string>): Placement {
    map n | n in (p.Keys + nodes) - removed :: if n in p then p[n] else IDLE
  }

  function AgentsOn(p: Placement, nodes: set<string>): set<string> {
    set n, a | n in nodes && n in p && a in p[n].agents :: a
  }

  /** An update loses exactly the agents on the removed nodes. */
  lemma UpdateLosesRemovedAgents(p: Placement, nodes: set<string>, removed: set<string>)
    requires Partitioned(p)
    ensures Partitioned(Updated(p, nodes, removed))
    ensures AllAgents(Updated(p, nodes, removed)) == AllAgents(p) - AgentsOn(p, removed)
  {
    var q := Updated(p, nodes, removed);
    forall n, a | n in q && a in q[n].agents ensures n in p && a in p[n].agents && a !in AgentsOn(p, removed) {
    }
    forall n, a | n in p && a in p[n].agents && a !in AgentsOn(p, removed) ensures n in q && a in q[n].agents {
    }
  }

  // ----- The topology object -----

  class NetworkTopology {
    var graphNodes: seq<string>
    var nodeStates: Placement
    /** The order in which the tracked nodes were added. */
    var order: seq<string>
    /** What the targets answer to the requests, one after another. */
    const network: nat -> Response
    var requests: nat
    var migrated: nat
    var refused: nat
    ghost var unanswered: nat

    constructor (network: nat -> Response)
      ensures Valid() && nodeStates == map[] && graphNodes == []
    {
      this.network := network;
      graphNodes, nodeStates, order := [], map[], [];
      requests, migrated, refused, unanswered := 0, 0, 0, 0;
    }

    ghost predicate Valid()
      reads this
    {
      && NoDuplicates(graphNodes) && NoDuplicates(order)
      && (forall n :: n in order <==> n in nodeStates)
      && (forall n :: n in nodeStates ==> n in graphNodes)
      && Partitioned(nodeStates)
    }

    /** Every node of the graph is tracked. */
    ghost predicate Synced()
      reads this
    {
      forall n :: n in graphNodes ==> n in nodeStates
    }

    method AddGraphNode(n: string)
      requires NoDuplicates(graphNodes)
      modifies this`graphNodes
      ensures NoDuplicates(graphNodes) && forall v :: v in graphNodes <==> v in old(graphNodes) || v == n
    {
      if n !in graphNodes {
        graphNodes := graphNodes + [n];
      }
    }

    method AddNodes(nodes: seq<string>)
      requires Valid()
      modifies this`graphNodes, this`nodeStates, this`order
      ensures Valid() && nodeStates == Updated(old(nodeStates), Elements(nodes), {})
      ensures forall v :: v in graphNodes <==> v in old(graphNodes) || v in nodes
    {
      hide Partitioned, Updated;
      assert nodes[..0] == [];
      NothingUpdated(nodeStates);
      for i := 0 to |nodes|
        invariant Valid() && nodeStates == Updated(old(nodeStates), Elements(nodes[..i]), {})
        invariant forall v :: v in graphNodes <==> v in old(graphNodes) || v in nodes[..i]
      {
        var n := nodes[i];
        assert nodes[..i + 1] == nodes[..i] + [n];
        UpdatedStep(old(nodeStates), nodes, i);
        AddGraphNode(n);
        if n !in nodeStates {
          IdleKeepsPartition(nodeStates, n);
          nodeStates := nodeStates[n := IDLE];
          order := order + [n];
        }
      }
      assert nodes[..|nodes|] == nodes;
    }

    method AddLinks(links: seq<(string, string)>)
      requires Valid()
      modifies this`graphNodes
      ensures Valid() && forall v :: v in graphNodes <==> v in old(graphNodes) || v in Ends(links)
    {
      assert links[..0] == [];
      for i := 0 to |links|
        invariant Valid()
        invariant forall v :: v in graphNodes <==> v in old(graphNodes) || v in Ends(links[..i])
      {
        EndsStep(links, i);
        AddGraphNode(links[i].0);
        AddGraphNode(links[i].1);
      }
      assert links[..|links|] == links;
    }

    /** Removes nodes up to the first that is not in the graph; `done` of them are gone. */
    method RemoveNodes(removed: seq<string>) returns (outcome: Outcome, ghost done: nat)
      requires Valid()
      modifies this`graphNodes, this`nodeStates, this`order
      ensures Valid() && done <= |removed|
      ensures NoDuplicates(removed[..done]) && forall n :: n in removed[..done] ==> n in old(graphNodes)
      ensures outcome == if done == |removed| then Done else UnknownNode(removed[done])
      ensures done < |removed| ==> removed[done] in removed[..done] || removed[done] !in old(graphNodes)
      ensures nodeStates == Updated(old(nodeStates), {}, Elements(removed[..done]))
      ensures forall v :: v in graphNodes <==> v in old(graphNodes) && v !in removed[..done]
    {
      hide Partitioned, Updated;
      assert removed[..0] == [];
      NothingUpdated(nodeStates);
      for i := 0 to |removed|
        invariant Valid() && NoDuplicates(removed[..i]) && forall n :: n in removed[..i] ==> n in old(graphNodes)
        invariant nodeStates == Updated(old(nodeStates), {}, Elements(removed[..i]))
        invariant forall v :: v in graphNodes <==> v in old(graphNodes) && v !in removed[..i]
      {
        var n := removed[i];
        assert removed[..i + 1] == removed[..i] + [n];
        RemovedStep(old(nodeStates), removed, i);
        RemovalKeepsPartition(nodeStates, n);
        if n !in graphNodes {
          return UnknownNode(n), i;
        }
        graphNodes := Without(graphNodes, n);
        nodeStates := nodeStates - {n};
        order := Without(order, n);
      }
      return Done, |removed|;
    }

    /** Applies a discovery update.  It stops with an error at the first removed node that is not in the graph;
        what was added stays, and so does the removal of the `done` nodes before.  A link to a node the update
        does not list puts an untracked node into the graph. */
    method ApplyUpdate(update: Update) returns (outcome: Outcome, ghost done: nat)
      requires Valid()
      modifies this`graphNodes, this`nodeStates, this`order
      ensures Valid() && done <= |update.removed|
      ensures outcome == if done == |update.removed| then Done else UnknownNode(update.removed[done])
      ensures outcome.Done? <==> NoDuplicates(update.removed) && forall n :: n in update.removed ==>
                n in old(graphNodes) || n in update.nodes || n in Ends(update.links)
      ensures NoDuplicates(update.removed[..done])
      ensures forall n :: n in update.removed[..done] ==>
                n in old(graphNodes) || n in update.nodes || n in Ends(update.links)
      ensures var removed := update.removed[..done];
              && nodeStates == Updated(old(nodeStates), Elements(update.nodes), Elements(removed))
              && AllAgents(nodeStates) == AllAgents(old(nodeStates)) - AgentsOn(old(nodeStates), Elements(removed))
              && forall v :: v in graphNodes <==>
                   (v in old(graphNodes) || v in update.nodes || v in Ends(update.links)) && v !in removed
      ensures forall n :: n in old(nodeStates) && n !in update.removed[..done] ==>
                n in nodeStates && nodeStates[n] == old(nodeStates)[n]
      ensures forall n :: n in nodeStates && n !in old(nodeStates) ==>
                n in update.nodes && nodeStates[n].agents == {} && nodeStates[n].resources == map[]
      ensures outcome.Done? && old(Synced()) ==> (Synced() <==> LinksAreTracked(old(nodeStates), update))
    {
      hide Partitioned, Updated, Ends, AllAgents, AgentsOn;
      AddNodes(update.nodes);
      AddLinks(update.links);
      outcome, done := RemoveNodes(update.removed);
      assert update.removed[..|update.removed|] == update.removed;
      if done < |update.removed| {
        assert update.removed[done] in update.removed;
      }
      UpdateLosesRemovedAgents(old(nodeStates), Elements(update.nodes), Elements(update.removed[..done]));
      UpdatedTwice(old(nodeStates), Elements(update.nodes), Elements(update.removed[..done]));
      UpdatedMeans(old(nodeStates), Elements(update.nodes), Elements(update.removed[..done]));
    }

    /** Asks `target` to take `agent`; only an accepted request moves it. */
    method MigrateAgent(agent: string, target: string) returns (response: Response)
      requires Valid() && agent in AllAgents(nodeStates) && target in nodeStates
      modifies this`nodeStates, this`requests, this`migrated, this`refused, this`unanswered
      ensures Valid() && SameCluster(old(nodeStates), nodeStates)
      ensures response == network(old(requests)) && requests == old(requests) + 1
      ensures nodeStates == Migrate(old(nodeStates), Migration(agent, target, response))
      ensures response.Accepted? ==> agent in nodeStates[target].agents
      ensures nodeStates.Keys == old(nodeStates).Keys
      ensures forall n :: n in nodeStates ==> nodeStates[n].agents - {agent} == old(nodeStates)[n].agents - {agent}
      ensures migrated == old(migrated) + (if response.Accepted? then 1 else 0)
      ensures refused == old(refused) + (if response.Refused? then 1 else 0)
      ensures unanswered == old(unanswered) + (if response.Raised? then 1 else 0)
    {
      assert exists source :: source in nodeStates && agent in nodeStates[source].agents;
      MigrateFacts(nodeStates, agent, target, network(requests));
      hide AllAgents, SameCluster, Partitioned, NoDuplicates;
      var source :| source in nodeStates && agent in nodeStates[source].agents;
      OnlySource(nodeStates, agent, source);
      response := network(requests);
      requests := requests + 1;
      if response.Accepted? {
        nodeStates := nodeStates[source := nodeStates[source].(agents := nodeStates[source].agents - {agent})];
        nodeStates := nodeStates[target := nodeStates[target].(agents := nodeStates[target].agents + {agent})];
        migrated := migrated + 1;
      } else if response.Refused? {
        refused := refused + 1;
      } else {
        unanswered := unanswered + 1;
      }
    }

    /** The requests from number `first` on were all accepted. */
    ghost predicate AllAccepted(first: nat)
      reads this
    {
      forall i :: first <= i < requests ==> network(i) == Accepted
    }

    /** All agents, node by node. */
    method ListAgents() returns (agents: seq<string>)
      requires Valid()
      ensures NoDuplicates(agents) && forall a :: a in agents <==> a in AllAgents(nodeStates)
    {
      agents := [];
      assert order[..0] == [];
      for i := 0 to |order|
        invariant NoDuplicates(agents)
        invariant forall a :: a in agents <==> a in AgentsOn(nodeStates, Elements(order[..i]))
      {
        assert order[i] in order;
        assert Elements(order[..i + 1]) == Elements(order[..i]) + {order[i]} by {
          assert order[..i + 1] == order[..i] + [order[i]];
        }
        var here := Listing(nodeStates[order[i]].agents);
        NextNodeAgents(nodeStates, order, i);
        NoDuplicatesConcat(agents, here);
        agents := agents + here;
      }
      assert order[..|order|] == order;
      assert Elements(order) == nodeStates.Keys;
    }

    /** Deals the agents to the graph's nodes in turn.  It is interrupted exactly when a request goes unanswered.
        Otherwise it ends with a lookup error exactly when some agent's turn falls to an untracked node, so never
        while every node of the graph is tracked.  If it ends well, one request was made for every agent that was
        not where its turn puts it; if no request was refused either, any two nodes are then within one agent of each
        other. */
    method RoundRobinBalance() returns (outcome: Outcome, ghost agents: seq<string>)
      requires Valid()
      modifies this`nodeStates, this`requests, this`migrated, this`refused, this`unanswered
      ensures Valid() && SameCluster(old(nodeStates), nodeStates)
      ensures outcome.Interrupted? <==> unanswered > old(unanswered)
      ensures !outcome.Interrupted? ==>
                (outcome.UnknownNode? <==>
                    exists i: nat :: i < |agents| && TurnFallsOutside(old(nodeStates), graphNodes, i))
      ensures outcome.UnknownNode? ==> outcome.node in graphNodes && outcome.node !in nodeStates
      ensures NoDuplicates(agents) && forall a :: a in agents <==> a in AllAgents(nodeStates)
      ensures outcome.Done? ==>
                requests - old(requests) == Misplaced(old(nodeStates), graphNodes, agents, |agents|)
      ensures outcome.Done? && refused == old(refused) && graphNodes != [] ==>
                DealtInTurn(nodeStates, graphNodes, agents, |agents|)
      ensures Synced() && AllAccepted(old(requests)) ==>
                && outcome.Done? && refused == old(refused) && unanswered == old(unanswered)
                && forall n, m :: n in nodeStates && m in nodeStates ==>
                     |nodeStates[n].agents| <= |nodeStates[m].agents| + 1
    {
      hide Partitioned, AllAgents, SameCluster, DealtInTurn, Migrate, TurnFallsOutside, NoDuplicates, Misplaced;
      SameClusterRefl(nodeStates);
      var listed := ListAgents();
      agents := listed;
      var nodes := graphNodes;
      NothingDealt(nodeStates, nodes, agents);
      for i := 0 to |listed|
        invariant Valid() && SameCluster(old(nodeStates), nodeStates) && refused >= old(refused)
        invariant nodeStates.Keys == old(nodeStates).Keys && AllAgents(nodeStates) == AllAgents(old(nodeStates))
        invariant unanswered == old(unanswered) && requests >= old(requests)
        invariant AllAccepted(old(requests)) ==> refused == old(refused)
        invariant forall j: nat :: j < i ==> !TurnFallsOutside(old(nodeStates), nodes, j)
        invariant StillPlaced(old(nodeStates), nodeStates, agents, i)
        invariant requests - old(requests) == Misplaced(old(nodeStates), nodes, agents, i)
        invariant refused == old(refused) && nodes != [] ==> DealtInTurn(nodeStates, nodes, agents, i)
      {
        assert listed[i] in listed;
        AgentHasNode(nodeStates, nodes, listed[i]);
        var target := nodes[i % |nodes|];
        TurnTarget(old(nodeStates), nodes, i);
        if target !in nodeStates {
          return UnknownNode(target), agents;
        }
        ghost var before, first := nodeStates, requests;
        MisplacedStep(old(nodeStates), nodes, agents, i);
        if listed[i] !in nodeStates[target].agents {
          var response := MigrateAgent(listed[i], target);
          SameClusterTrans(old(nodeStates), before, nodeStates);
          assert AllAccepted(old(requests)) ==> network(first) == Accepted;
          if response.Raised? {
            assert network(first).Raised?;
            return Interrupted, agents;
          }
        }
        StillPlacedStep(old(nodeStates), before, nodeStates, agents, i);
        if refused == old(refused) {
          DealtOneMore(before, nodeStates, nodes, agents, i);
        }
      }
      if Synced() && refused == old(refused) {
        DealtMeansBalanced(nodeStates, nodes, agents);
      }
      return Done, agents;
    }

    /** The first tracked node with the least of `resource`. */
    method FindOptimalNode(resource: string) returns (best: string)
      requires Valid() && nodeStates != map[]
      ensures best in nodeStates && IsOptimal(nodeStates, order, resource, best)
    {
      var n :| n in nodeStates;
      assert n in order;
      best := order[0];
      ghost var at := 0;
      for i := 1 to |order|
        invariant 0 <= at < |order| && at < i && order[at] == best
        invariant forall j :: 0 <= j < i ==>
                  Pressure(nodeStates[best], resource) <= Pressure(nodeStates[order[j]], resource)
        invariant forall j :: 0 <= j < at ==>
                  Pressure(nodeStates[best], resource) < Pressure(nodeStates[order[j]], resource)
      {
        if Pressure(nodeStates[order[i]], resource) < Pressure(nodeStates[best], resource) {
          best := order[i];
          at := i;
        }
      }
    }

    /** Asks the optimal node to take one more agent of the relocation `r`. */
    method RelocateAgent(agent: string, resource: string, ghost r: Relocation) returns (response: Response)
      requires Valid() && Relocating(r, nodeStates, refused) && IsOptimal(nodeStates, order, resource, r.best)
      requires IsUntried(r, agent)
      modifies this`nodeStates, this`requests, this`migrated, this`refused, this`unanswered
      ensures Valid() && Relocating(r.After(agent, response), nodeStates, refused)
      ensures IsOptimal(nodeStates, order, resource, r.best)
      ensures response == network(old(requests)) && requests == old(requests) + 1
      ensures refused == old(refused) + (if response.Refused? then 1 else 0)
      ensures unanswered == old(unanswered) + (if response.Raised? then 1 else 0)
    {
      hide Relocating, SameCluster, Partitioned, AllAgents, NoDuplicates, Migrate;
      AgentIsPlaced(r, nodeStates, refused, agent);
      var target := FindOptimalNode(resource);
      SameClusterRefl(nodeStates);
      OptimalIsStable(nodeStates, nodeStates, order, resource, r.best, target);
      ghost var before, refusedBefore := nodeStates, refused;
      response := MigrateAgent(agent, target);
      if !response.Accepted? {
        NotAccepted(before, agent, target, response);
      }
      OptimalStays(before, nodeStates, order, resource, r.best);
      RelocationStep(r, before, nodeStates, refusedBefore, agent, response);
    }

    /** Moves up to five agents off an overloaded node to the optimal one, which may be the overloaded node
        itself; the agents in `moved` go there and no other agent moves.  A refused request is not repeated, an
        unanswered one ends the eviction. */
    method EvictAgents(node: string, resource: string)
      returns (outcome: Outcome, ghost best: string, ghost candidates: set<string>, ghost moved: set<string>)
      requires Valid() && node in nodeStates
      modifies this`nodeStates, this`requests, this`migrated, this`refused, this`unanswered
      ensures Valid() && SameCluster(old(nodeStates), nodeStates) && outcome in {Done, Interrupted}
      ensures best in nodeStates && IsOptimal(nodeStates, order, resource, best)
      ensures moved <= candidates <= old(nodeStates)[node].agents
      ensures |candidates| == (if |old(nodeStates)[node].agents| < 5 then |old(nodeStates)[node].agents| else 5)
      ensures Relocated(old(nodeStates), nodeStates, node, best, moved)
      ensures outcome.Interrupted? <==> unanswered > old(unanswered)
      ensures outcome.Done? ==>
                |candidates - moved| == refused - old(refused) && requests - old(requests) == |candidates|
      ensures requests >= old(requests) && unanswered >= old(unanswered)
      ensures AllAccepted(old(requests)) ==> outcome.Done? && moved == candidates
    {
      hide Relocating, Relocated, SameCluster, IsOptimal, Partitioned, AllAgents, NoDuplicates, Elements;
      var chosen := ChooseCandidates(nodeStates[node].agents);
      candidates, moved := Elements(chosen), {};
      best := FindOptimalNode(resource);
      ghost var r := Relocation(nodeStates, node, best, refused, {}, {});
      RelocationStarts(r);
      ElementsOfPrefix(chosen, 0);
      for i := 0 to |chosen|
        invariant Valid() && IsOptimal(nodeStates, order, resource, best)
        invariant Relocating(r, nodeStates, refused) && r.IsFrom(old(nodeStates), node, best, old(refused))
        invariant r.tried == Elements(chosen[..i]) && r.moved <= candidates
        invariant unanswered == old(unanswered) && requests == old(requests) + i
        invariant AllAccepted(old(requests)) ==> refused == old(refused)
      {
        CandidateIsChosen(chosen, i);
        ElementsOfPrefix(chosen, i);
        ghost var first := requests;
        var response := RelocateAgent(chosen[i], resource, r);
        assert AllAccepted(old(requests)) ==> network(first) == Accepted;
        r := r.After(chosen[i], response);
        if response.Raised? {
          RelocationMeans(r, nodeStates, refused);
          return Interrupted, best, candidates, r.moved;
        }
      }
      assert chosen[..|chosen|] == chosen;
      RelocationMeans(r, nodeStates, refused);
      NoneLeft(candidates, r.moved);
      return Done, best, candidates, r.moved;
    }

    /** Evicts from every overloaded node in turn; `trace` lists the placements in between.  It is interrupted exactly
        when a request goes unanswered.  No other node loses an agent, and an overloaded one at most five. */
    method ResourceBasedBalance() returns (outcome: Outcome, ghost trace: seq<Placement>)
      requires Valid()
      modifies this`nodeStates, this`requests, this`migrated, this`refused, this`unanswered
      ensures Valid() && SameCluster(old(nodeStates), nodeStates) && outcome in {Done, Interrupted}
      ensures outcome.Interrupted? <==> unanswered > old(unanswered)
      ensures AllAccepted(old(requests)) ==> outcome.Done?
      ensures 0 < |trace| <= |order| + 1 && trace[0] == old(nodeStates) && trace[|trace| - 1] == nodeStates
      ensures outcome.Done? ==> |trace| == |order| + 1
      ensures forall k :: 0 <= k < |trace| - 1 ==>
                IsBalancingStep(trace[k], trace[k + 1], order, order[k], AllAccepted(old(requests)))
      ensures forall n :: n in nodeStates ==>
                |Lost(old(nodeStates), nodeStates, n)| <= if Overloaded(nodeStates[n]) then 5 else 0
    {
      hide SameCluster, IsBalancingStep, Lost, NoDuplicates, Partitioned;
      SameClusterRefl(nodeStates);
      trace := [nodeStates];
      for i := 0 to |order|
        invariant Valid() && SameCluster(old(nodeStates), nodeStates)
        invariant unanswered == old(unanswered) && requests >= old(requests)
        invariant |trace| == i + 1 && trace[0] == old(nodeStates) && trace[i] == nodeStates
        invariant forall k :: 0 <= k < i ==>
                    IsBalancingStep(trace[k], trace[k + 1], order, order[k], AllAccepted(old(requests)))
      {
        ghost var before, accepted := nodeStates, AllAccepted(old(requests));
        ghost var first := requests;
        assert order[i] in order;
        var interrupted := BalanceNode(order[i]);
        SameClusterTrans(old(nodeStates), before, nodeStates);
        StepsStay(trace, order, accepted, AllAccepted(old(requests)));
        WeakerStep(before, nodeStates, order, order[i], AllAccepted(first), AllAccepted(old(requests)));
        trace := trace + [nodeStates];
        if interrupted {
          LossesAtTheEnd(trace, order, AllAccepted(old(requests)));
          return Interrupted, trace;
        }
      }
      LossesAtTheEnd(trace, order, AllAccepted(old(requests)));
      return Done, trace;
    }

    /** Evicts from the node if it is overloaded. */
    method BalanceNode(node: string) returns (interrupted: bool)
      requires Valid() && node in nodeStates
      modifies this`nodeStates, this`requests, this`migrated, this`refused, this`unanswered
      ensures Valid() && SameCluster(old(nodeStates), nodeStates)
      ensures interrupted <==> unanswered > old(unanswered)
      ensures requests >= old(requests) && unanswered >= old(unanswered)
      ensures AllAccepted(old(requests)) ==> !interrupted
      ensures IsBalancingStep(old(nodeStates), nodeStates, order, node, AllAccepted(old(requests)))
    {
      hide SameCluster, Partitioned, Relocated, IsOptimal, IsBalancingStep, NoDuplicates;
      interrupted := false;
      var cpu, memory := Pressure(nodeStates[node], "cpu"), Pressure(nodeStates[node], "memory");
      if cpu > 80.0 || memory > 80.0 {
        ghost var before := nodeStates;
        var scarcer := if cpu > memory then "cpu" else "memory";
        var evicted;
        ghost var best, candidates, moved;
        evicted, best, candidates, moved := EvictAgents(node, scarcer);
        OptimalWas(before, nodeStates, order, scarcer, best);
        EvictionIsStep(before, nodeStates, order, node, best, candidates, moved, AllAccepted(old(requests)));
        interrupted := evicted.Interrupted?;
      } else {
        SameClusterRefl(nodeStates);
        IdleIsStep(nodeStates, order, node, AllAccepted(requests));
      }
    }

    /** Relocates the agents of a failed node one by one to the node with the least CPU pressure.  A request
        that is refused is not repeated; one that goes unanswered is, so the loop ends once all requests from some
        number `quiet` on are answered.  The failed node keeps exactly the agents that were refused, unless it is
        itself the optimal node. */
    method FailoverAgents(failedNode: string, ghost quiet: nat)
      returns (outcome: Outcome, ghost best: string, ghost moved: set<string>)
      requires Valid() && forall i :: i >= quiet ==> !network(i).Raised?
      modifies this`nodeStates, this`requests, this`migrated, this`refused, this`unanswered
      ensures Valid() && SameCluster(old(nodeStates), nodeStates)
      ensures outcome == if failedNode in old(nodeStates) then Done else UnknownNode(failedNode)
      ensures outcome.UnknownNode? ==> nodeStates == old(nodeStates)
      ensures outcome.Done? ==>
                && best in nodeStates && IsOptimal(nodeStates, order, "cpu", best)
                && Relocated(old(nodeStates), nodeStates, failedNode, best, moved)
                && |old(nodeStates)[failedNode].agents - moved| == refused - old(refused)
                && (best != failedNode ==> |nodeStates[failedNode].agents| == refused - old(refused))
                && (nodeStates[failedNode].agents == {} <==>
                      old(nodeStates)[failedNode].agents == {} || (best != failedNode && refused == old(refused)))
    {
      hide Relocating, Relocated, SameCluster, IsOptimal, Partitioned, AllAgents, NoDuplicates, Splits;
      SameClusterRefl(nodeStates);
      if failedNode !in nodeStates {
        return UnknownNode(failedNode), "", {};
      }
      var agentsToMove := nodeStates[failedNode].agents;
      best := FindOptimalNode("cpu");
      ghost var r := Relocation(nodeStates, failedNode, best, refused, {}, {});
      RelocationStarts(r);
      SplitStart(agentsToMove);
      ghost var faultsLeft := quiet;
      while agentsToMove != {}
        invariant Valid() && IsOptimal(nodeStates, order, "cpu", best)
        invariant Relocating(r, nodeStates, refused) && r.IsFrom(old(nodeStates), failedNode, best, old(refused))
        invariant Splits(old(nodeStates)[failedNode].agents, r.tried, agentsToMove)
        invariant requests + faultsLeft >= quiet
        decreases |agentsToMove| + faultsLeft
      {
        var agentId :| agentId in agentsToMove;
        ghost var waiting, first := agentsToMove, requests;
        SplitOne(old(nodeStates)[failedNode].agents, r.tried, agentsToMove, agentId);
        agentsToMove := agentsToMove - {agentId};
        var response := RelocateAgent(agentId, "cpu", r);
        r := r.After(agentId, response);
        if response.Raised? {
          assert first < quiet;
          faultsLeft := faultsLeft - 1;
          agentsToMove := agentsToMove + {agentId};
          assert agentsToMove == waiting;
        }
      }
      SplitAll(old(nodeStates)[failedNode].agents, r.tried);
      RelocationMeans(r, nodeStates, refused);
      DrainedIff(old(nodeStates), nodeStates, failedNode, best, r.moved);
      return Done, best, r.moved;
    }
  }

  lemma NothingUpdated(p: Placement)
    ensures Updated(p, Elements([]), {}) == p && Updated(p, {}, Elements([])) == p
  {
    assert Elements<string>([]) == {};
  }

  lemma UpdatedStep(p: Placement, nodes: seq<string>, i: nat)
    requires i < |nodes|
    ensures var q := Updated(p, Elements(nodes[..i]), {});
            Updated(p, Elements(nodes[..i + 1]), {}) == if nodes[i] in q then q else q[nodes[i] := IDLE]
  {
    assert nodes[..i + 1] == nodes[..i] + [nodes[i]];
    assert Elements(nodes[..i + 1]) == Elements(nodes[..i]) + {nodes[i]};
  }

  lemma RemovedStep(p: Placement, removed: seq<string>, i: nat)
    requires i < |removed|
    ensures Updated(p, {}, Elements(removed[..i + 1])) == Updated(p, {}, Elements(removed[..i])) - {removed[i]}
  {
    assert removed[..i + 1] == removed[..i] + [removed[i]];
    assert Elements(removed[..i + 1]) == Elements(removed[..i]) + {removed[i]};
  }

  lemma RemovalKeepsPartition(p: Placement, n: string)
    requires Partitioned(p)
    ensures Partitioned(p - {n})
  {
  }

  lemma IdleKeepsPartition(p: Placement, n: string)
    requires Partitioned(p) && n !in p
    ensures Partitioned(p[n := IDLE])
  {
  }

  lemma UpdatedTwice(p: Placement, nodes: set<string>, removed: set<string>)
    ensures Updated(Updated(p, nodes, {}), {}, removed) == Updated(p, nodes, removed)
    ensures Updated(p, nodes, removed).Keys == p.Keys + nodes - removed
  {
  }

  lemma UpdatedMeans(p: Placement, nodes: set<string>, removed: set<string>)
    ensures var q := Updated(p, nodes, removed);
            && (forall n :: n in p && n !in removed ==> n in q && q[n] == p[n])
            && (forall n :: n in q && n !in p ==> n in nodes && q[n].agents == {} && q[n].resources == map[])
  {
  }

  /** Every surviving end of a link is tracked already or listed as a node. */
  predicate LinksAreTracked(p: Placement, update: Update) {
    forall v :: v in Ends(update.links) ==> v in p || v in update.nodes || v in update.removed
  }

  lemma EndsStep(links: seq<(string, string)>, i: nat)
    requires i < |links|
    ensures Ends(links[..i + 1]) == Ends(links[..i]) + {links[i].0, links[i].1}
  {
    assert links[..i + 1] == links[..i] + [links[i]];
    assert forall l :: l in links[..i + 1] <==> l in links[..i] || l == links[i];
  }

  function Without(s: seq<string>, n: string): (r: seq<string>)
    requires NoDuplicates(s)
    ensures NoDuplicates(r) && forall v :: v in r <==> v in s && v != n
  {
    if s == [] then []
    else
      var m := |s| - 1;
      assert s == s[..m] + [s[m]] && s[m] !in s[..m];
      if s[m] == n then s[..m] else Without(s[..m], n) + [s[m]]
  }

  /** `q` is `p` with `moved` taken from `node` to `best`, and nothing else. */
  ghost predicate Relocated(p: Placement, q: Placement, node: string, best: string, moved: set<string>) {
    && node in p && best in p && q.Keys == p.Keys && moved <= p[node].agents
    && forall n :: n in p ==> q[n].agents == AfterMove(p, node, best, moved, n)
  }

  function AfterMove(p: Placement, node: string, best: string, moved: set<string>, n: string): set<string>
    requires n in p
  {
    if n == best then p[n].agents + moved else if n == node then p[n].agents - moved else p[n].agents
  }

  /** A relocation of agents from `node` to `best`: where and with how many refusals it began, the agents tried
      so far, and those that moved. */
  datatype Relocation = Relocation(start: Placement, node: string, best: string, refused: nat, tried: set<string>,
                                   moved: set<string>) {
    /** A request that goes unanswered does not count as tried. */
    function After(agent: string, response: Response): Relocation {
      match response
      case Raised => this
      case Refused => this.(tried := tried + {agent})
      case Accepted => this.(tried := tried + {agent}, moved := moved + {agent})
    }

    predicate IsFrom(p: Placement, node: string, best: string, refused: nat) {
      start == p && this.node == node && this.best == best && this.refused == refused
    }
  }

  ghost predicate IsUntried(r: Relocation, agent: string) {
    r.node in r.start && agent in r.start[r.node].agents && agent !in r.tried
  }

  /** Of the agents tried so far those in `moved` have moved, the others were refused. */
  ghost predicate Relocating(r: Relocation, q: Placement, refused: nat) {
    && SameCluster(r.start, q) && Partitioned(r.start) && Relocated(r.start, q, r.node, r.best, r.moved)
    && r.moved <= r.tried <= r.start[r.node].agents && |r.tried - r.moved| == refused - r.refused
  }

  ghost predicate Splits(all: set<string>, tried: set<string>, todo: set<string>) {
    tried !! todo && tried + todo == all
  }

  lemma SplitStart(all: set<string>)
    ensures Splits(all, {}, all)
  {
  }

  lemma SplitOne(all: set<string>, tried: set<string>, todo: set<string>, agent: string)
    requires Splits(all, tried, todo) && agent in todo
    ensures agent in all && agent !in tried && Splits(all, tried + {agent}, todo - {agent})
    ensures todo - {agent} + {agent} == todo
  {
  }

  lemma SplitAll(all: set<string>, tried: set<string>)
    ensures Splits(all, tried, {}) ==> tried == all
  {
  }

  lemma RelocationStarts(r: Relocation)
    requires r.node in r.start && r.best in r.start && Partitioned(r.start) && r.tried == r.moved == {}
    ensures Relocating(r, r.start, r.refused)
  {
  }

  lemma RelocationMeans(r: Relocation, q: Placement, refused: nat)
    requires Relocating(r, q, refused)
    ensures SameCluster(r.start, q) && r.node in r.start && r.best in q && q.Keys == r.start.Keys
    ensures Partitioned(r.start) && Relocated(r.start, q, r.node, r.best, r.moved)
    ensures r.moved <= r.tried <= r.start[r.node].agents && |r.tried - r.moved| == refused - r.refused
  {
  }

  /** What one more request does to a relocation. */
  lemma RelocationStep(r: Relocation, p: Placement, q: Placement, refused: nat, agent: string, response: Response)
    requires Relocating(r, p, refused) && IsUntried(r, agent)
    requires SameCluster(p, q) && Partitioned(q) && r.best in q
    requires if response.Accepted? then agent in q[r.best].agents else q == p
    requires forall n :: n in q ==> n in p && q[n].agents - {agent} == p[n].agents - {agent}
    ensures Relocating(r.After(agent, response), q, refused + if response.Refused? then 1 else 0)
  {
    hide Relocated, Partitioned, SameCluster;
    RelocationMeans(r, p, refused);
    SameClusterTrans(r.start, p, q);
    assert r.tried + {agent} - (r.moved + {agent}) == r.tried - r.moved;
    assert r.tried + {agent} - r.moved == r.tried - r.moved + {agent};
    if response.Accepted? {
      RelocatedOneMore(r.start, p, q, r.node, r.best, r.moved, agent);
    }
  }

  lemma NotAccepted(p: Placement, agent: string, target: string, response: Response)
    requires target in p && !response.Accepted?
    ensures Migrate(p, Migration(agent, target, response)) == p
  {
  }

  lemma CandidateIsChosen(chosen: seq<string>, i: nat)
    requires i < |chosen|
    ensures chosen[i] in Elements(chosen)
  {
  }

  lemma ElementsOfPrefix(s: seq<string>, i: nat)
    requires i <= |s|
    ensures Elements(s[..0]) == {}
    ensures i < |s| ==> Elements(s[..i + 1]) == Elements(s[..i]) + {s[i]}
    ensures i < |s| && NoDuplicates(s) ==> s[i] !in Elements(s[..i])
  {
    if i < |s| {
      assert s[..i + 1] == s[..i] + [s[i]];
    }
  }

  /** What a finished relocation leaves on the node. */
  lemma DrainedIff(p: Placement, q: Placement, node: string, best: string, moved: set<string>)
    requires Relocated(p, q, node, best, moved)
    ensures q[node].agents == if best == node then p[node].agents else p[node].agents - moved
    ensures q[node].agents == {} <==> p[node].agents == {} || (best != node && |p[node].agents - moved| == 0)
  {
    assert p[node].agents + moved == p[node].agents;
  }

  // ----- What resource-based balancing takes away -----

  predicate Overloaded(s: NodeState) {
    Pressure(s, "cpu") > 80.0 || Pressure(s, "memory") > 80.0
  }

  /** What balancing does for one node: it evicts up to five agents if the node is overloaded, to the node that is
      best for the scarcer resource, and nothing otherwise; all of them go if every request is `accepted`. */
  ghost predicate IsBalancingStep(p: Placement, q: Placement, order: seq<string>, node: string, accepted: bool) {
    && node in p && (forall v :: v in order ==> v in p) && SameCluster(p, q)
    && var resources := p[node].resources;
       var cpu := if "cpu" in resources then resources["cpu"] else 0.0;
       var memory := if "memory" in resources then resources["memory"] else 0.0;
       if cpu > 80.0 || memory > 80.0 then
         exists best, moved ::
           && IsOptimal(p, order, if cpu > memory then "cpu" else "memory", best)
           && Relocated(p, q, node, best, moved) && |moved| <= 5
           && (accepted ==> |moved| == if |p[node].agents| < 5 then |p[node].agents| else 5)
       else q == p
  }

  lemma EvictionIsStep(p: Placement, q: Placement, order: seq<string>, node: string, best: string,
                       candidates: set<string>, moved: set<string>, accepted: bool)
    requires node in p && (forall v :: v in order ==> v in p) && Overloaded(p[node])
    requires var scarcer := if Pressure(p[node], "cpu") > Pressure(p[node], "memory") then "cpu" else "memory";
             IsOptimal(p, order, scarcer, best)
    requires Relocated(p, q, node, best, moved) && moved <= candidates
    requires |candidates| == if |p[node].agents| < 5 then |p[node].agents| else 5
    requires SameCluster(p, q) && (accepted ==> moved == candidates)
    ensures IsBalancingStep(p, q, order, node, accepted)
  {
    hide IsOptimal, Relocated, SameCluster;
    SubsetSize(moved, candidates);
  }

  lemma IdleIsStep(p: Placement, order: seq<string>, node: string, accepted: bool)
    requires node in p && (forall v :: v in order ==> v in p) && !Overloaded(p[node])
    ensures IsBalancingStep(p, p, order, node, accepted)
  {
    SameClusterRefl(p);
  }

  lemma WeakerStep(p: Placement, q: Placement, order: seq<string>, node: string, accepted: bool, accepted': bool)
    requires IsBalancingStep(p, q, order, node, accepted) && (accepted' ==> accepted)
    ensures IsBalancingStep(p, q, order, node, accepted')
  {
    hide IsOptimal, Relocated;
  }

  lemma StepsStay(trace: seq<Placement>, order: seq<string>, accepted: bool, accepted': bool)
    requires 0 < |trace| <= |order| + 1 && (accepted' ==> accepted)
    requires forall k :: 0 <= k < |trace| - 1 ==> IsBalancingStep(trace[k], trace[k + 1], order, order[k], accepted)
    ensures forall k :: 0 <= k < |trace| - 1 ==> IsBalancingStep(trace[k], trace[k + 1], order, order[k], accepted')
  {
    hide IsBalancingStep;
    forall k | 0 <= k < |trace| - 1 ensures IsBalancingStep(trace[k], trace[k + 1], order, order[k], accepted') {
      WeakerStep(trace[k], trace[k + 1], order, order[k], accepted, accepted');
    }
  }

  /** The optimal node after a migration was optimal before it. */
  lemma OptimalWas(p: Placement, q: Placement, order: seq<string>, resource: string, n: string)
    requires SameCluster(p, q) && (forall v :: v in order ==> v in q) && IsOptimal(q, order, resource, n)
    ensures (forall v :: v in order ==> v in p) && IsOptimal(p, order, resource, n)
  {
    SameClusterSymm(p, q);
    OptimalStays(q, p, order, resource, n);
  }

  lemma SameClusterSymm(p: Placement, q: Placement)
    requires SameCluster(p, q)
    ensures SameCluster(q, p) && q.Keys == p.Keys
  {
  }

  lemma NoneLeft(all: set<string>, some: set<string>)
    requires some <= all
    ensures |all - some| == 0 ==> some == all
  {
    if |all - some| == 0 {
      assert all - some == {};
      forall a | a in all ensures a in some {
        assert a !in all - some;
      }
    }
  }

  function Lost(p: Placement, q: Placement, n: string): set<string>
    requires n in p && n in q
  {
    p[n].agents - q[n].agents
  }

  /** The first `i` nodes have lost at most their share, the others nothing. */
  ghost predicate LossesBounded(p: Placement, q: Placement, order: seq<string>, i: nat) {
    && p.Keys == q.Keys && (forall n :: n in order ==> n in p)
    && forall k :: 0 <= k < |order| ==>
         |Lost(p, q, order[k])| <= if k < i && Overloaded(p[order[k]]) then 5 else 0
  }

  lemma NothingLost(p: Placement, order: seq<string>)
    requires forall n :: n in order ==> n in p
    ensures LossesBounded(p, p, order, 0)
  {
    assert forall n :: n in p ==> Lost(p, p, n) == {};
  }

  lemma LossesSkip(p: Placement, q: Placement, order: seq<string>, i: nat)
    requires i < |order| && LossesBounded(p, q, order, i)
    ensures LossesBounded(p, q, order, i + 1)
  {
    hide Lost;
  }

  lemma LossesStep(p: Placement, q: Placement, r: Placement, order: seq<string>, i: nat, best: string,
                   moved: set<string>)
    requires i < |order| && NoDuplicates(order) && LossesBounded(p, q, order, i) && SameCluster(p, q)
    requires order[i] in q && Overloaded(q[order[i]]) && Relocated(q, r, order[i], best, moved) && |moved| <= 5
    ensures LossesBounded(p, r, order, i + 1)
  {
    forall k | 0 <= k < |order|
      ensures |Lost(p, r, order[k])| <= if k < i + 1 && Overloaded(p[order[k]]) then 5 else 0
    {
      assert order[k] in order;
      if k == i {
        forall a | a in Lost(p, r, order[k]) ensures a in moved {
          assert a !in Lost(p, q, order[k]);
        }
        SubsetSize(Lost(p, r, order[k]), moved);
      } else {
        SubsetSize(Lost(p, r, order[k]), Lost(p, q, order[k]));
      }
    }
  }

  lemma {:induction false} TraceLosses(trace: seq<Placement>, order: seq<string>, accepted: bool, k: nat)
    requires k < |trace| <= |order| + 1 && NoDuplicates(order) && forall n :: n in order ==> n in trace[0]
    requires forall i :: 0 <= i < |trace| - 1 ==> IsBalancingStep(trace[i], trace[i + 1], order, order[i], accepted)
    ensures LossesBounded(trace[0], trace[k], order, k) && SameCluster(trace[0], trace[k])
  {
    hide LossesBounded, IsBalancingStep, SameCluster, NoDuplicates;
    if k == 0 {
      NothingLost(trace[0], order);
      SameClusterRefl(trace[0]);
    } else {
      var i := k - 1;
      TraceLosses(trace, order, accepted, i);
      assert IsBalancingStep(trace[i], trace[i + 1], order, order[i], accepted);
      StepLosses(trace[0], trace[i], trace[i + 1], order, i, accepted);
    }
  }

  lemma StepLosses(p: Placement, q: Placement, r: Placement, order: seq<string>, i: nat, accepted: bool)
    requires i < |order| && NoDuplicates(order) && LossesBounded(p, q, order, i) && SameCluster(p, q)
    requires IsBalancingStep(q, r, order, order[i], accepted)
    ensures LossesBounded(p, r, order, i + 1) && SameCluster(p, r)
  {
    SameClusterTrans(p, q, r);
    hide SameCluster, IsOptimal, Relocated, LossesBounded;
    if Overloaded(q[order[i]]) {
      var scarcer := if Pressure(q[order[i]], "cpu") > Pressure(q[order[i]], "memory") then "cpu" else "memory";
      var best, moved :| IsOptimal(q, order, scarcer, best) && Relocated(q, r, order[i], best, moved) && |moved| <= 5;
      LossesStep(p, q, r, order, i, best, moved);
    } else {
      LossesSkip(p, q, order, i);
    }
  }

  lemma LossesAtTheEnd(trace: seq<Placement>, order: seq<string>, accepted: bool)
    requires 0 < |trace| <= |order| + 1 && NoDuplicates(order) && forall n :: n in order <==> n in trace[0]
    requires forall i :: 0 <= i < |trace| - 1 ==> IsBalancingStep(trace[i], trace[i + 1], order, order[i], accepted)
    ensures var p, q := trace[0], trace[|trace| - 1];
            q.Keys == p.Keys && forall n :: n in p ==> |Lost(p, q, n)| <= if Overloaded(q[n]) then 5 else 0
  {
    TraceLosses(trace, order, accepted, |trace| - 1);
    LossesMean(trace[0], trace[|trace| - 1], order, |trace| - 1);
  }

  lemma LossesMean(p: Placement, q: Placement, order: seq<string>, i: nat)
    requires LossesBounded(p, q, order, i) && SameCluster(p, q) && forall n :: n in p ==> n in order
    ensures forall n :: n in p ==> |Lost(p, q, n)| <= if Overloaded(q[n]) then 5 else 0
  {
    forall n | n in p ensures |Lost(p, q, n)| <= if Overloaded(q[n]) then 5 else 0 {
      var k :| 0 <= k < |order| && order[k] == n;
    }
  }

  lemma AgentIsPlaced(r: Relocation, q: Placement, refused: nat, agent: string)
    requires Relocating(r, q, refused) && IsUntried(r, agent)
    ensures agent in AllAgents(q) && q != map[]
  {
    assert agent in AllAgents(r.start);
  }

  /** Up to five of the agents. */
  method ChooseCandidates(agents: set<string>) returns (chosen: seq<string>)
    ensures NoDuplicates(chosen) && Elements(chosen) <= agents && |chosen| == |Elements(chosen)|
    ensures |Elements(chosen)| == if |agents| < 5 then |agents| else 5
  {
    var listed := Listing(agents);
    NoDuplicatesFits(listed, agents);
    assert Elements(listed) == agents;
    chosen := if |listed| <= 5 then listed else listed[..5];
    NoDuplicatesFits(chosen, agents);
  }

  lemma SameClusterTrans(p: Placement, q: Placement, r: Placement)
    requires SameCluster(p, q) && SameCluster(q, r)
    ensures SameCluster(p, r)
    ensures r.Keys == p.Keys && AllAgents(r) == AllAgents(p)
  {
  }

  lemma RelocatedOneMore(p: Placement, q: Placement, r: Placement, node: string, best: string, moved: set<string>,
                         a: string)
    requires Relocated(p, q, node, best, moved) && r.Keys == q.Keys
    requires Partitioned(p) && Partitioned(r) && a in p[node].agents && a in r[best].agents
    requires forall n :: n in r ==> r[n].agents - {a} == q[n].agents - {a}
    ensures Relocated(p, r, node, best, moved + {a})
  {
    var now := moved + {a};
    forall n | n in p
      ensures r[n].agents == AfterMove(p, node, best, now, n)
    {
      assert r[n].agents - {a} == q[n].agents - {a};
      assert a in r[n].agents <==> n == best;
      assert a in p[n].agents <==> n == node;
      assert r[n].agents == (q[n].agents - {a}) + (if n == best then {a} else {});
    }
  }

  lemma SameClusterRefl(p: Placement)
    ensures SameCluster(p, p)
  {
  }

  lemma AgentHasNode(p: Placement, nodes: seq<string>, agent: string)
    requires agent in AllAgents(p) && forall n :: n in p ==> n in nodes
    ensures nodes != []
  {
    var n :| n in p && agent in p[n].agents;
    assert n in nodes;
  }

  lemma OnlySource(p: Placement, agent: string, source: string)
    requires Partitioned(p) && source in p && agent in p[source].agents
    ensures agent in AllAgents(p) && SourceOf(p, agent) == source
  {
  }

  lemma MigrateFacts(p: Placement, agent: string, target: string, response: Response)
    requires Partitioned(p) && agent in AllAgents(p) && target in p
    ensures var q := Migrate(p, Migration(agent, target, response));
            && Partitioned(q) && SameCluster(p, q) && q.Keys == p.Keys
            && (response.Accepted? ==> agent in q[target].agents)
            && forall n :: n in p ==> q[n].agents - {agent} == p[n].agents - {agent}
  {
    if response.Accepted? {
      MoveKeepsPartition(p, agent, SourceOf(p, agent), target);
    }
  }

  lemma NextNodeAgents(p: Placement, order: seq<string>, i: nat)
    requires i < |order| && NoDuplicates(order) && order[i] in p && Partitioned(p)
    ensures AgentsOn(p, Elements(order[..i + 1])) == AgentsOn(p, Elements(order[..i])) + p[order[i]].agents
    ensures forall a :: a in p[order[i]].agents ==> a !in AgentsOn(p, Elements(order[..i]))
  {
    assert order[..i + 1] == order[..i] + [order[i]];
    assert order[i] !in Elements(order[..i]);
  }

  lemma DealtOneMore(p: Placement, q: Placement, nodes: seq<string>, agents: seq<string>, i: nat)
    requires nodes != [] && i < |agents| && NoDuplicates(agents) && q.Keys == p.Keys
    requires DealtInTurn(p, nodes, agents, i)
    requires nodes[i % |nodes|] in q && agents[i] in q[nodes[i % |nodes|]].agents
    requires forall n :: n in q ==> q[n].agents - {agents[i]} == p[n].agents - {agents[i]}
    ensures DealtInTurn(q, nodes, agents, i + 1)
  {
    forall j | 0 <= j < i ensures nodes[j % |nodes|] in q && agents[j] in q[nodes[j % |nodes|]].agents {
      var n := nodes[j % |nodes|];
      assert agents[j] in p[n].agents - {agents[i]};
    }
  }

  lemma OptimalStays(p: Placement, q: Placement, order: seq<string>, resource: string, n: string)
    requires SameCluster(p, q) && forall v :: v in order ==> v in p
    requires IsOptimal(p, order, resource, n)
    ensures IsOptimal(q, order, resource, n)
  {
    assert forall v :: v in order ==> Pressure(p[v], resource) == Pressure(q[v], resource);
  }
}
