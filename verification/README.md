# Verified model of KUVA AI's scheduling, messaging and optimisation core

This project models the parts of the KUVA AI platform that carry algorithms or stateful protocols, and proves
what they promise. `dafny verify dfyconfig.toml` checks all of it.

| file | models |
|---|---|
| Wrappers.dfy, Graphs.dfy | optional values and results; walks, reachability, components, acyclicity, ranks |
| Validator.dfy | Tarjan's strongly connected components, as the cycle detector uses them |
| Registry.dfy | the agent registry, its reverse-dependency graph over any history, and its cycle search |
| Dags.dfy | the attributed graph object, Kahn's generations, descendants and roots |
| Pipeline.dfy, HookChains.dfy, PipelineOrders.dfy, Parser.dfy | DAG rules, graph construction with hook chains, what it means for the order of execution, acceptance |
| ParallelTasks.dfy, Schedules.dfy | the parallel-task rewrite and what it means for schedules |
| Topology.dfy | agent placement: discovery updates, migrations, balancing, eviction, failover |
| ConsumerGroup.dfy | Kafka consumption with manual commits, retries, dead letters and rebalances |
| Subscriber.dfy | concurrent processing with a retry queue, an attempt bound and a dead-letter sink |
| StatsD.dfy | the bounded metric buffer and the greedy packing into datagrams |
| Tours.dfy, Annealing.dfy | the 2-opt neighbour, route length, and simulated annealing |
| Genetic.dfy | evaluation, elitism, crossover, in-place mutation, migration |
| Audit.dfy | the audit log's hash chain |

The repository's objects are classes with the same fields. Their methods are proved against functions or
predicates on snapshots of those fields, and the theorems are lemmas about the snapshots. Sets and dictionaries
are visited in an arbitrary order, random choices and temperatures are arbitrary values, and each network call is
an input or an arbitrary answer. Names are strings; energies, fitness values and pressures are reals.

## What the proofs say about the code

- A self-loop is never reported by the Tarjan detector (one-element components are dropped), but is by the
  registry's search. The detector reports something exactly when a cycle visits two different nodes.
- The registry's graph only grows: overriding or unregistering a type withdraws no recorded dependency.
- A pipeline whose declared dependencies are acyclic is still rejected as cyclic when one list of a node names a
  hook twice. That, and cyclic dependencies, are the only reasons for a rejection as cyclic exactly when no node key
  extends the hook-type prefix of another (as `a.pre_execute` or `a.pre_execute.x` does for `a`). The keys are not
  checked; with such a key an innocent pipeline can be rejected, in one of two ways.
- The parallel-task rewrite loses a node exactly when a group gets a name that some node has at that moment: that of
  an earlier group, of another node, or of one of its own tasks. A name that only a removed task had does no harm.
- A link in a discovery update to a node that the update does not list puts an untracked node into the graph; from
  then on round-robin balancing ends with a lookup error, unless a request goes unanswered first, exactly when some
  agent's turn falls to an untracked node. An update that raises keeps what it had added and removed by then.
- Failover sends every agent to the node with the least CPU pressure. If that is the failed node itself, nothing
  moves and all requests count as successful. A refused request is not repeated: the failed node keeps one agent for
  each refusal.
- In the consumer group a dead-letter send always raises: building its headers reads a variable that is not
  defined in that method (communication/event_stream/kafka/consumer_group.py:210). Reporting a failed retry raises
  before that, because the logger is the standard library's and gets a keyword it does not know
  (communication/event_stream/kafka/consumer_group.py:234-237); the model covers loggers of both kinds. Either
  way the loop ends and commits, and no committed offset is above the message. If the loop is run again on the same
  consumer, the message is behind the fetch position, and the next success commits it unhandled. A success on a retry
  does not advance the pending offset, and the batch bound counts topics, not messages.
- As written, a commit of a nonempty table raises before it is cleared, because the class it builds the list from is
  not imported (communication/event_stream/kafka/consumer_group.py:15 and line 169). The model covers commits that
  are accepted, refused, or raise.
- An assignment can make a committed offset go back exactly when, on some assigned partition, a success is pending
  above a message that is not yet committed, whether the partition was owned or not. The code relies on a revocation
  to empty the pending table.
- After a failed StatsD flush the drop counter is unchanged, although the unsent chunks are gone. An oversized
  first metric is preceded by an empty datagram.
- Annealing moves to the best candidate of a round whether or not it was accepted, and its stagnation counter
  counts the rounds that did end on the best energy known.

## Model

| member | source | states |
|---|---|---|
| Validator.FindStronglyConnectedComponents | core/orchestration/workflow/validator.py:271-309 | for every finite graph the answer lists exactly the maximal mutually reachable sets with more than one node, each without repetition, and no listed component reaches a later one, the filtered one-node components included |
| Validator.TarjanCycleDetector.StrongConnect | core/orchestration/workflow/validator.py:280-303 | a call keeps the search invariant, leaves the caller's stack and table entries alone, and returns a lowlink that is reached on the stack and bounds every edge crossing below the call; the recursion ends because unvisited nodes run out |
| Validator.TarjanCycleDetector.Examine | core/orchestration/workflow/validator.py:288-293 | one successor is examined, explored first if it is new, and the scan goes on with one successor less |
| Validator.TarjanCycleDetector.FinishCall | core/orchestration/workflow/validator.py:295-303 | with no successor left, the component is popped or the node stays on the stack, and the caller learns a lowlink that bounds every crossing edge |
| Validator.TarjanCycleDetector.PopComponent | core/orchestration/workflow/validator.py:296-302 | popping down to the node takes off exactly the part of the stack from that node upwards, without repetition |
| Validator.TopIsScc | core/orchestration/workflow/validator.py:295-303 | when lowlink equals index, the nodes above are one strongly connected component: nothing is missing, nothing merged |
| Validator.StayKeepsInvariant | core/orchestration/workflow/validator.py:288-295 | when lowlink is smaller, the node can stay on the stack: everything on the stack still reaches an earlier active call |
| Validator.PopKeepsInvariant | core/orchestration/workflow/validator.py:296-303 | popping a component restores the invariant of the caller |
| Validator.PopEmitsComponent | core/orchestration/workflow/validator.py:296-303 | the appended component is new, and edges out of it lead only to components appended before |
| Validator.EmittedInReverseOrder | core/orchestration/workflow/validator.py:288-303 | components are appended in reverse topological order, one-element components included |
| Validator.EveryComponentEmitted | core/orchestration/workflow/validator.py:305-307 | once every node has been visited every strongly connected component has been appended |
| Validator.LargeComponentsOrdered | core/orchestration/workflow/validator.py:309 | dropping one-element components keeps the order |
| Validator.LargeComponentIffCycle | core/orchestration/workflow/validator.py:271-309 | a component with more than one node exists exactly when some cycle visits two different nodes |
| Registry.AgentRegistry.Register | core/agent/registry.py:114-145 | the error cases in their order; a type that is there is refused unless overriding; on success the new entry, and nothing else but the recorded dependencies; cycles stay anchored at registered types |
| Registry.AgentRegistry.UpdateDependencyGraph | core/agent/registry.py:154-162 | the type is added to the dependents of each of its dependency types and nothing else changes |
| Registry.AgentRegistry.Unregister | core/agent/registry.py:164-177 | unknown types and types with recorded dependents are refused; otherwise only the entry goes |
| Registry.RegisterKeepsAnchors | core/agent/registry.py:142-162 | a registration closes cycles only through the registered type |
| Registry.UnregisterKeepsAnchors | core/agent/registry.py:164-176 | a type that can be unregistered lies on no recorded cycle, so cycles stay anchored without it |
| Registry.EveryCycleIsAnchored | core/agent/registry.py:142-176 | after any history of register, override and unregister calls every recorded cycle passes through a registered type |
| Registry.EdgesAreEverythingRecorded | core/agent/registry.py:154-176 | the recorded graph holds an edge exactly when some accepted registration declared it |
| Registry.DependencySearch.Dfs | core/agent/registry.py:213-227 | the stack is always a simple path, every reported list is a simple cycle, and nodes finish after everything they lead to, last edges of reported lists excepted |
| Registry.BackEdgeKeepsInvariant | core/agent/registry.py:221-223 | the slice of the stack from the repeated node, closed by it, is a cycle with no repeated inner node |
| Registry.PostorderExcludesCycles | core/agent/registry.py:220-227 | nodes that finished after all their successors lie on no cycle |
| Registry.EveryCycleIsReported | core/agent/registry.py:213-232 | after a search every cycle within reach of its starting points uses the last edge of some reported list |
| Registry.NothingReportedNothingThere | core/agent/registry.py:229-232 | a search that reported nothing leaves no cycle within reach of its starting points |
| Registry.AgentRegistry.DetectCircularDependencies | core/agent/registry.py:208-232 | the result is empty exactly when the whole recorded graph is acyclic, self-loops included; every list in it is a simple cycle, and every recorded cycle uses the last edge of some list |
| Registry.AgentRegistry.ValidateRegistry | core/agent/registry.py:202-206 | validation fails exactly when the recorded graph has a cycle, and names real cycles |
| Dags.TopologicalGenerations | core/orchestration/workflow/parser.py:201-202 | the layering exists exactly for acyclic graphs; generations list each node once, edges lead to later generations, and every node has a predecessor in the generation just before its own |
| Dags.GenerationIsLongestWalk | core/orchestration/workflow/parser.py:263 | so a node is in generation k exactly when the longest walk to it has k edges |
| Dags.Descendants | core/orchestration/workflow/parser.py:215-216 | exactly the nodes reachable from the source, itself excluded |
| Dags.AcyclicNodesHaveRoots | core/orchestration/workflow/parser.py:210-220 | in a finite acyclic graph every node is a root or reachable from one |
| Pipeline.ValidateDagRules | core/orchestration/workflow/parser.py:137-153 | accepts exactly the configurations whose dependencies exist and whose nodes of type service do not have the default executor; an error names a real offender |
| Pipeline.ChainHooks | core/orchestration/workflow/parser.py:185-197 | adds one labelled node for each hook, an edge from the pipeline node to each, and the chain through all three hook types |
| Pipeline.ChainEdgesMeaning | core/orchestration/workflow/parser.py:187-197 | the added edges are those from the node to its hooks and those between consecutive hooks, no others |
| Pipeline.ProcessHookDependencies | core/orchestration/workflow/parser.py:182-197 | over a snapshot of the pipeline nodes: all hook chains are added, hooks are labelled with their parent, other attributes stay |
| Pipeline.BuildDag | core/orchestration/workflow/parser.py:155-175 | the graph has the configured nodes with their attributes, an edge from each dependency to its dependents, and the hook chains |
| PipelineOrders.EdgesMean | core/orchestration/workflow/parser.py:166-197 | an edge leads from a dependency to a dependent, from a node to a hook of its own, or from a hook to the next of the same node, and all of these are there |
| PipelineOrders.OrdersRespectPipeline | core/orchestration/workflow/parser.py:166-197 | in every topological order dependencies come before their dependents, nodes before their hooks, pre_execute hooks before post_success hooks before post_failure hooks, and the hooks of one list in its order |
| HookChains.HookIdInjective | core/orchestration/workflow/parser.py:190-191 | below keys of which none extends another's hook-type prefix, a hook identifier determines node, hook type and hook |
| HookChains.HooksKeepAcyclicIff | core/orchestration/workflow/parser.py:182-202 | below such keys, the full graph is acyclic exactly when the dependencies are and no list of a node names a hook twice |
| HookChains.OnlyVisibleCyclesIffApart | core/orchestration/workflow/parser.py:182-202 | for any set of keys: every accepted pipeline with these keys has this property exactly when no key extends another's hook-type prefix |
| HookChains.AcyclicMeansNoRepeats | core/orchestration/workflow/parser.py:182-202 | whatever the keys, an acyclic full graph has acyclic dependencies and no repeated hook |
| HookChains.IntruderClashes | core/orchestration/workflow/parser.py:26-64 | any key that extends another's hook-type prefix admits an acyclic pipeline with no repeated hook that yields a cycle: the key is a hook identifier itself, or two nodes share two hooks and chain them in opposite orders |
| HookChains.DotlessKeysAreApart | core/orchestration/workflow/parser.py:26-27 | keys without dots, as the schema demands of the `id` field, never do that |
| Parser.DetectUnusedNodes | core/orchestration/workflow/parser.py:210-220 | the reported nodes are exactly those with no root above them |
| Parser.AnalyzeDag | core/orchestration/workflow/parser.py:199-204 | rejects exactly the cyclic graphs; the unreachable-node error never occurs |
| Parser.Parse | core/orchestration/workflow/parser.py:90-104 | a configuration is accepted exactly when the rules hold and the whole graph is acyclic, which for keys that are apart means acyclic dependencies and no repeated hook; every topological order of the accepted graph runs the pipeline as declared |
| ParallelTasks.Optimize | core/orchestration/workflow/parser.py:261-282 | fails exactly on cyclic graphs; otherwise the result is what the generations determine step by step, and, unless a group takes the name of a node that is there, the contraction of the groups of the original generations, with every other node, edge and attribute kept and exactly the right tasks grouped |
| ParallelTasks.GroupsHoldTaskSinks | core/orchestration/workflow/parser.py:266-275 | two nodes share a group exactly when both are of type task with no edge out and in the same generation; a task is grouped only with another, and a group keeps the order of its generation |
| ParallelTasks.MakeGroup | core/orchestration/workflow/parser.py:273-280 | the in-place steps add up to the group node with the incoming edges of its tasks, and the tasks removed, whatever the name |
| ParallelTasks.MoveIntoGroup | core/orchestration/workflow/parser.py:278-280 | moves the incoming edges of a task to the group and removes the task, also if the task has the group's name |
| ParallelTasks.NoClashIsRewrite | core/orchestration/workflow/parser.py:261-282 | while every name is new, the result contracts groups of sinks, no task is in two groups, and surviving nodes keep their attributes |
| ParallelTasks.NextGenerationUntouched | core/orchestration/workflow/parser.py:266-271 | grouping earlier generations does not change which nodes of a later one qualify |
| Schedules.RewriteIsAcyclic | core/orchestration/workflow/parser.py:261-282 | a rewrite with new names is acyclic and edges between surviving nodes are unchanged |
| Schedules.ExpansionIsSchedule | core/orchestration/workflow/parser.py:261-282 | any topological order of such a result, each group expanded to its tasks in any order, is a topological order of the input |
| Schedules.SchedulesPreservedIff | core/orchestration/workflow/parser.py:261-282 | for every acyclic graph and every naming of groups: the result can be scheduled and all its expanded schedules are schedules of the input exactly when each group's name is new when the group is made |
| Schedules.ClashLoses | core/orchestration/workflow/parser.py:274-280 | a group that takes a present name loses a node: another of its tasks, or one that the node stood for |
| Topology.NetworkTopology.ApplyUpdate | core/orchestration/scheduler/graph_based/topology_manager.py:71-83 | which updates raise, and at which removal; new nodes start with no agents and no resources, other nodes keep both, exactly the agents on nodes removed by then are lost, also when the update raises; without an error graph and tracked nodes stay in step exactly when every surviving link end is tracked or listed |
| Topology.UpdateLosesRemovedAgents | core/orchestration/scheduler/graph_based/topology_manager.py:71-83 | an update keeps the partition and loses exactly the agents on the removed nodes |
| Topology.NetworkTopology.MigrateAgent | core/orchestration/scheduler/graph_based/topology_manager.py:127-143 | one request is made; if the target accepts, the agent moves, otherwise nothing changes; refusals and missing answers are counted; the partition, the agents and the resources stay |
| Topology.MoveKeepsPartition | core/orchestration/scheduler/graph_based/topology_manager.py:137-139 | moving an agent, even to its own node, keeps every agent on exactly one node and touches no other agent |
| Topology.MigrationsKeepAgents | core/orchestration/scheduler/graph_based/topology_manager.py:127-157 | over any interleaving of migrations, accepted or not, every agent stays on exactly one node and none appears or disappears |
| Topology.NetworkTopology.RoundRobinBalance | core/orchestration/scheduler/graph_based/topology_manager.py:97-105 | it is interrupted exactly when a request goes unanswered, and otherwise ends with a lookup error exactly when some agent's turn falls to an untracked node; a finished pass made one request for each misplaced agent; if every node is tracked and every request accepted it finishes with agent number i on node i modulo the node count and any two nodes within one agent |
| Topology.DealtIsBalanced | core/orchestration/scheduler/graph_based/topology_manager.py:97-105 | a placement that deals the agents in turn is balanced to within one |
| Topology.TurnsFair | core/orchestration/scheduler/graph_based/topology_manager.py:102-103 | the exact number of agents each node gets |
| Topology.NetworkTopology.FindOptimalNode | core/orchestration/scheduler/graph_based/topology_manager.py:151-157 | the first tracked node, in tracking order, with the least pressure |
| Topology.OptimalMeans | core/orchestration/scheduler/graph_based/topology_manager.py:151-157 | no tracked node reports less of the resource than the optimal one, what is not reported counting as nothing |
| Topology.NetworkTopology.EvictAgents | core/orchestration/scheduler/graph_based/topology_manager.py:145-149 | of up to five agents those whose requests are accepted go to the optimal node, which may be the overloaded one itself, the others are as many as the refusals, and nothing else moves; it is interrupted exactly when a request goes unanswered, and moves all five if all are accepted |
| Topology.NetworkTopology.ResourceBasedBalance | core/orchestration/scheduler/graph_based/topology_manager.py:113-120 | node by node: one with more than 80 of either resource evicts to the node best for the scarcer one, any other does nothing; only overloaded nodes lose agents, none more than five; it is interrupted exactly when a request goes unanswered |
| Topology.NetworkTopology.FailoverAgents | core/orchestration/scheduler/graph_based/topology_manager.py:250-265 | unanswered requests are repeated, refused ones are not; the failed node keeps exactly the refused agents unless it is itself optimal, and is drained exactly when it was empty, or none was refused and another node is optimal |
| ConsumerGroup.KafkaConsumerGroup.CommitOffsets | communication/event_stream/kafka/consumer_group.py:161-173 | one past every pending offset is submitted, and the table is emptied whether or not the broker accepts, but not if the call raises |
| ConsumerGroup.KafkaConsumerGroup.HandleRetry | communication/event_stream/kafka/consumer_group.py:224-242 | the processor is called until it succeeds, the report of its failure raises or the policy is exhausted, then the dead-letter path is taken; exactly how many calls that takes; with a strict logger only one |
| ConsumerGroup.KafkaConsumerGroup.ProcessMessage | communication/event_stream/kafka/consumer_group.py:176-204 | only a success on the first call becomes pending; when the loop must stop; at most one call more than the retries allowed |
| ConsumerGroup.FateMeans | communication/event_stream/kafka/consumer_group.py:176-242 | which calls and settings lead to each way a delivery can end |
| ConsumerGroup.InvalidIsSkipped | communication/event_stream/kafka/consumer_group.py:196-199 | without a dead-letter topic an invalid message ends the loop only if the commit after it raises |
| ConsumerGroup.BatchBound | communication/event_stream/kafka/consumer_group.py:266-267 | fewer topics than the batch bound wait for a commit while the loop runs, and no message is followed by a commit before that many wait |
| ConsumerGroup.KafkaConsumerGroup.HandleRevoked | communication/event_stream/kafka/consumer_group.py:145-154 | a revocation commits and, unless that raises, clears the assignments |
| ConsumerGroup.KafkaConsumerGroup.HandleAssigned | communication/event_stream/kafka/consumer_group.py:156-159 | the assigned partitions, and no others, are fetched from then on, from their committed offsets |
| ConsumerGroup.KafkaConsumerGroup.RunConsumptionLoop | communication/event_stream/kafka/consumer_group.py:244-269 | the loop performs the event steps in order up to the first that ends it and no further, and commits at the end; if the events are ones that may happen, no message below a committed offset is unhandled afterwards, and with a dead-letter topic and a retry policy some call on each of them succeeded |
| ConsumerGroup.StepKeepsConsistent | communication/event_stream/kafka/consumer_group.py:145-204 | every step keeps the link between pending, committed and fetched offsets and the handled deliveries, and lowers no committed offset |
| ConsumerGroup.AssignKeepsConsistentIff | communication/event_stream/kafka/consumer_group.py:156-159 | an assignment keeps this link exactly when on no assigned partition a success is pending above an uncommitted message |
| ConsumerGroup.RunIsConsistent | communication/event_stream/kafka/consumer_group.py:244-269 | the link holds after any sequence of polls, successes, failures, commits and rebalances up to the end of the loop, and after further commits |
| ConsumerGroup.CommittedNeverDecreases | communication/event_stream/kafka/consumer_group.py:161-173 | between any two moments of a run no committed offset decreases and no delivery is forgotten |
| ConsumerGroup.NothingCommittedUnhandled | communication/event_stream/kafka/consumer_group.py:161-204 | every message below the committed offset was processed, at once or on a retry, or skipped as configured, with nothing raised over it, and the one just below was processed successfully |
| ConsumerGroup.FreshConsumerLosesNothing | communication/event_stream/kafka/consumer_group.py:161-204 | the same for every run of a consumer that starts with nothing |
| ConsumerGroup.CommittedMeansSucceeded | communication/event_stream/kafka/consumer_group.py:176-242 | with a dead-letter topic and a retry policy, every message below a committed offset was in an event whose first call was accepted, or whose first call failed and an allowed retry succeeded |
| ConsumerGroup.RunAgainAfterRaiseSkips | communication/event_stream/kafka/consumer_group.py:244-269 | if the loop is run again after something raised over a message, the next success on the partition commits past that message, which stays unhandled |
| ConsumerGroup.AssignWhilePendingRewinds | communication/event_stream/kafka/consumer_group.py:156-173 | from any consistent state, assigning a partition with a pending success above an uncommitted message can make a committed offset go back |
| ConsumerGroup.HarmlessIffNeverRewinds | communication/event_stream/kafka/consumer_group.py:156-173 | an assignment is of the harmless kind exactly when no continuation of the run lowers a committed offset |
| ConsumerGroup.PendingAboveUncommitted | communication/event_stream/kafka/consumer_group.py:145-173 | an ordinary run reaches such a state |
| Subscriber.KafkaSubscriber.ProcessMessage | communication/event_stream/nats/subscriber.py:138-168 | success finishes a delivery, a failure below the attempt bound queues it with the next attempt number, anything else goes to the sink, is dropped without one, or is lost when publishing fails |
| Subscriber.KafkaSubscriber.HandleProcessingFailure | communication/event_stream/nats/subscriber.py:182-191 | below the attempt bound the message is queued with the next attempt number, otherwise it goes to the sink |
| Subscriber.KafkaSubscriber.HandleInvalidMessage | communication/event_stream/nats/subscriber.py:170-180 | without a dead-letter topic the message is dropped; a publication that raises loses it |
| Subscriber.KafkaSubscriber.HandleRetries | communication/event_stream/nats/subscriber.py:127-136 | with nothing else going on enough rounds empty the queue and finish every delivery, whatever the outcomes |
| Subscriber.EveryDeliveryAccounted | communication/event_stream/nats/subscriber.py:127-191 | at every moment of every run each delivery is in exactly one of in flight, retry queue and finished, and its handler was called at most one time more than it had retries left |
| Subscriber.StepShrinksWork | communication/event_stream/nats/subscriber.py:127-191 | every step but a poll reduces the work left |
| Subscriber.QuietRunIsShort | communication/event_stream/nats/subscriber.py:127-191 | once polling stops a run ends within a number of steps fixed at that moment |
| Subscriber.StuckMeansFinished | communication/event_stream/nats/subscriber.py:127-191 | when no step but a poll is possible every delivery is finished |
| StatsD.StatsDClient.Submit | observability/metrics/statsd.py:249-277 | the buffer holds the latest metrics since the last flush, as many as it has room for, and reports when a flush is due |
| StatsD.StatsDClient.Pack | observability/metrics/statsd.py:154-172 | packing is lossless and in order, each oversized metric is alone, an empty chunk appears only in front of an oversized first metric, other chunks fit the MTU, and no split whose chunks fit or hold one oversized metric has fewer chunks that are not empty; the bytes of each chunk are its metrics in order, with one newline byte between neighbours |
| StatsD.StatsDClient.Flush | observability/metrics/statsd.py:148-181 | which chunks are sent before a failing send, with their bytes, and that the drop counter does not see the rest |
| StatsD.ServerReadsBuffer | observability/metrics/statsd.py:154-172 | if no metric is empty or contains a newline, splitting the chunks at newlines gives back the buffer in order |
| StatsD.JoinIsText | observability/metrics/statsd.py:162-172 | each metric sits in the joined text behind those before it and their separators, and nothing else is in it |
| StatsD.GreedyStaysAhead | observability/metrics/statsd.py:159-170 | after any number of chunks the greedy split has covered at least as much as any split whose chunks fit the MTU or hold one oversized metric |
| StatsD.GreedyIsOptimal | observability/metrics/statsd.py:159-172 | no such order-preserving split uses fewer chunks, oversized metrics or not |
| StatsD.PackedFitsIsOptimal | observability/metrics/statsd.py:154-172 | with no oversized metric every chunk is within the MTU and no order-preserving split within the MTU uses fewer |
| StatsD.PackingExtends | observability/metrics/statsd.py:169-170 | adding a metric that fits keeps every promise about the chunks |
| StatsD.PackingCloses | observability/metrics/statsd.py:164-170 | closing a chunk and starting the next keeps every promise about the chunks |
| StatsD.JoinSize | observability/metrics/statsd.py:162-170 | the running size is one more than the size of the joined chunk |
| Tours.TSPSolver.Calculate | core/orchestration/workflow/optimizer/simulated_annealing.py:312-317 | the loop computes the length of the open path |
| Tours.LengthOfTwo | core/orchestration/workflow/optimizer/simulated_annealing.py:312-317 | a path of two places is as long as the way from the first to the second |
| Tours.TSPSolver.GenerateNeighbor | core/orchestration/workflow/optimizer/simulated_annealing.py:319-324 | the result is a new array with one segment of at least two places turned around |
| Tours.NeighborIsMutual | core/orchestration/workflow/optimizer/simulated_annealing.py:319-324 | a neighbour is a permutation of the tour, and the tour is a neighbour of it |
| Tours.ReverseSegmentUndoes | core/orchestration/workflow/optimizer/simulated_annealing.py:323 | the same reversal undoes itself |
| Tours.BoundaryOnlyIffSymmetric | core/orchestration/workflow/optimizer/simulated_annealing.py:312-324 | a reversal changes the length only by its boundary edges, for all tours and segments, exactly when the distance table is symmetric |
| Annealing.SimulatedAnnealing.BestCandidate | core/orchestration/workflow/optimizer/simulated_annealing.py:209-223 | every candidate of the batch is a neighbour of the present tour, and the chosen one is the first with the least energy |
| Annealing.SimulatedAnnealing.UpdateState | core/orchestration/workflow/optimizer/simulated_annealing.py:178-191 | the state moves to the candidate unconditionally, on a copy, and keeps the better of it and the best |
| Annealing.SimulatedAnnealing.Run | core/orchestration/workflow/optimizer/simulated_annealing.py:199-261 | wherever it stops outside the update of its state: the best energy is the least of the initial one and every energy of every batch, both solutions have their recorded energies and are permutations of the initial tour, and each round moved to a neighbour; why it stopped, and that it did not stop earlier: rounds used up, temperature low enough, the bound of stagnant rounds reached, or a fault in that round |
| Annealing.ExplainsGrows | core/orchestration/workflow/optimizer/simulated_annealing.py:209-231 | one round extends the history that explains the present and the best energy |
| Genetic.Evaluate | core/orchestration/workflow/optimizer/genetic_algorithm.py:175-193 | every individual carries the objective value of its chromosome, which is shared and not copied; where the objective raises the individual stays as it was |
| Genetic.SortedMeans | core/orchestration/workflow/optimizer/genetic_algorithm.py:201-203 | the elite order is by falling fitness and a rearrangement of the population |
| Genetic.FirstIsBest | core/orchestration/workflow/optimizer/genetic_algorithm.py:201-204 | the first elite is at least as good as every individual |
| Genetic.GeneticOptimizer.Select | core/orchestration/workflow/optimizer/genetic_algorithm.py:72-78 | the winner is the best of three distinct contestants |
| Genetic.GeneticOptimizer.Crossover | core/orchestration/workflow/optimizer/genetic_algorithm.py:95-103 | children are new arrays whose genes add up to those of the parents and differ by those of the parents times a spread factor that is not negative |
| Genetic.GeneticOptimizer.Mutate | core/orchestration/workflow/optimizer/genetic_algorithm.py:120-131 | each gene of the given array moves by at most one |
| Genetic.GeneticOptimizer.Breed | core/orchestration/workflow/optimizer/genetic_algorithm.py:207-222 | the parents won tournaments of three; two new chromosomes whose genes come from theirs by crossover or copy, but for a mutation by at most one; no existing array is written |
| Genetic.GeneticOptimizer.Evolve | core/orchestration/workflow/optimizer/genetic_algorithm.py:195-224 | exactly the configured number of individuals, elites first, every other one a child of tournament winners on an array of its own, and no existing chromosome changed |
| Genetic.GeneticOptimizer.IslandMigration | core/orchestration/workflow/optimizer/genetic_algorithm.py:280-289 | the population is kept unchanged in front; behind it, in some order, come exactly two different members of each island, the islands being the consecutive near-equal parts of the population |
| Genetic.IslandSizes | core/orchestration/workflow/optimizer/genetic_algorithm.py:282 | the parts follow one another from the start, the first ones having one member more than the others |
| Genetic.GeneticOptimizer.Generation | core/orchestration/workflow/optimizer/genetic_algorithm.py:249-264 | with at least one elite the best fitness does not fall over evaluate, evolve, migrate, evaluate, even if the objective raises on other individuals |
| Audit.AuditLogger.Log | security/audit/auditor.py:95-130 | the new chain value hashes the old one followed by the entry's digest, or is that digest for the first entry; the chain value covers the whole log, and each stored record carries its content hash and the chain value of its moment |
| Audit.EqualInputsEqualLogs | security/audit/auditor.py:103-110 | two logs with the same last chained text are equal, or two hashed texts collide |
| Audit.ChainDeterminesLog | security/audit/auditor.py:98-110 | two logs that end on the same chain value are equal, their lengths included, or a collision between them exists |
| Audit.ChainedIsNoEntry | security/audit/auditor.py:106-110 | a chained text is never the text of an entry |

## Left out

- RoundRobinBalance: says nothing about the final distribution when a request is refused, because the code promises nothing then.
- FailoverAgents: all requests from some number on are answered; otherwise the loop of the code goes on for ever.
- Optimize: the group name is an arbitrary function of the listed tasks; hashing itself is not modelled.
- BuildDag: the execution group of a node is not modelled, because the code computes it from an undefined name (core/orchestration/workflow/parser.py:179); nor is the constant label on dependency edges.
- ProcessHookDependencies: works on a snapshot of the pipeline nodes; the code adds nodes while it iterates over the live node view, which the graph library refuses.
- RunConsumptionLoop: the broker is one consumer's view; other members of the group and commits still in flight are not modelled. The guarantee is for one run of the loop.
- HandleInvalidMessage: whether a publication succeeds is an arbitrary answer; as written it always raises, because the producer class is not defined in that file (communication/event_stream/nats/subscriber.py:173).
- HandleProcessingFailure: as written it raises, because the client's message has no headers mapping to read from and no replace method (communication/event_stream/nats/subscriber.py:184-187), so a failing delivery is lost and not queued; the model takes both to work.
- HandleRetries: the retry task is given a number of rounds instead of a shutdown flag, and waiting is not modelled; the circuit breaker is treated as closed.
- Generation: one generation; the optimisation pipeline around it reads fitness values that have not been computed (core/orchestration/workflow/optimizer/genetic_algorithm.py:274).
- Run: acceptance rate, cooling formula, adaptive control and checkpoints are arbitrary or absent; resuming from a checkpoint is not modelled. An interrupt inside the state update (core/orchestration/workflow/optimizer/simulated_annealing.py:181-186) is not covered: it can leave an energy beside a solution that does not have it.
- Log: storage accepts every record; signatures and the serialization of an entry to JSON text are parameters (as written, serializing the entry's timestamp raises, security/audit/auditor.py:98-100), and a persist that fails after the chain value advanced is not modelled.
- Flush: a connection is reduced to the number of datagrams it still takes; that a TCP or TLS flush waits for a lock it already holds (observability/metrics/statsd.py:116, observability/metrics/statsd.py:193) is not modelled, nor are sampling and metric formatting.
- AnalyzeDag: the reordering of edges after the checks is not modelled; as written it assigns to a read-only view of the edges (core/orchestration/workflow/parser.py:230) and raises on every nonempty graph. Parse inherits this.
- Mutate: of the power in the formula of a step (core/orchestration/workflow/optimizer/genetic_algorithm.py:127-128) only that it lies between 0 and 1, as its base does, is used; powers with a real exponent are not modelled.
- Template rendering, YAML loading and the visualizer: no algorithmic content.
- Auto-scaling, partition detection, routing and health checks of the topology manager: calls into other systems.
- Overlapping migrations of one agent: each migration is one step.
- The other validators of the validator file, which analyse Python syntax trees and modules.
- Floating-point rounding, threads and wall-clock time.
