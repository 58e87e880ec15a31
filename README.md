# Dependency graph

A model of the `Dependencies` class: a directed "depends-on" graph stored as a
map from each known node to the set of its direct dependencies. The class
offers

- `add_direct(parent, children)`: merges `children` into the parent's set, then
  makes every child a known node;
- `dependencies_for(node)`: every node that `node` depends on, directly or
  transitively, sorted ascending, never including `node` itself. It is
  computed by a depth-first search over an explicit work-list that is seeded
  with `node` already marked visited;
- `size`: the number of known nodes.

The store's map creates an empty entry for any key that is looked up. The model
writes this out as a get-or-insert-empty lookup: `Lookup` is the method and
`Graphs.Register` the function that specifies it.

Layout:

- `graphs.dfy` (module `Graphs`) holds the value-level view: the graph type,
  `Register`, `AddEdges` (the effect of adding direct dependencies), the
  invariant `Closed` (every child is a key), and reachability by walks of one
  or more edges, with their lemmas.
- `sorting.dfy` (module `Sorting`) holds an insertion sort that stands in for
  the library sort applied to the result. It also proves that a strictly
  ascending sequence is determined by its elements.
- `traversal.dfy` (module `Traversal`) holds the invariant of the work-list
  search and one lemma per step of the loop.
- `dependencies.dfy` (module `DependencyGraph`) holds the class `Dependencies`,
  with a `graph` field that its methods update in place. The search keeps a
  `seq` stack, a `visited` set and the list of dependencies, exactly as the
  source does.
- `scenarios.dfy` (module `Scenarios`) replays the unit tests' scenarios
  against the class. Each scenario method's postcondition gives the exact
  answers its test expects. Two further client methods cover querying a node
  that was never added and querying the same node twice. Nodes `A`..`H` are
  the integers 1..8, so ascending order is the tests' alphabetical order.

`dependencies_for` reads like a pure query, but the lookup at
dependencies.rb:28 goes through the map's default block. So an unknown start
node becomes a key with no dependencies, and the size grows by one.
`DependenciesFor` states this: `graph == Register(old(graph), node)`.

## Model

| member | source | states |
|---|---|---|
| DependencyGraph.Dependencies.constructor | dependencies.rb:10-12 | a new store has no known nodes and satisfies the invariant that every child is a key |
| DependencyGraph.Dependencies.Size | dependencies.rb:14-16 | the number of keys equals the number of distinct nodes mentioned as parent or child; nodes are counted, not edges |
| DependencyGraph.Dependencies.Lookup | dependencies.rb:11 | a lookup returns the node's set, which is empty for an unknown node, and registers an unknown node with no dependencies, leaving every other entry alone |
| DependencyGraph.Dependencies.AddDirect | dependencies.rb:18-23 | the new graph is `AddEdges` of the old one (parent's set grown by the children, each new child registered empty), and the invariant that every child is a key is kept |
| DependencyGraph.Dependencies.DependenciesFor | dependencies.rb:25-45 | the result is strictly ascending; it holds exactly the nodes reachable from `node` by one or more edges other than `node`; `node` is never in it, even on a cycle; an unknown node gives `[]`; the only change to the graph is the registration of `node`; the search terminates |
| DependencyGraph.SetToSeq | dependencies.rb:28 | converting a set to a sequence lists exactly its elements, each once |
| Graphs.AddEdges | dependencies.rb:18-23 | the keys become the old keys plus the parent and every child, and the parent's set is its old set grown by the children; the remaining entries (old ones unchanged, every unknown child registered with an empty set) are stated by AddEdgesEffect and AddEdgesDetermined |
| Graphs.Register | dependencies.rb:11 | get-or-insert-empty adds the node as a key, keeps its set if it had one, gives it an empty one otherwise, and changes no other entry |
| Graphs.AddEdgesEffect | dependencies.rb:18-23 | after adding direct dependencies, the keys are the old keys plus the parent and every child (the parent alone for an empty list); the parent's set is the old set plus the children; other existing entries are unchanged; new children have empty sets |
| Graphs.AddEdgesDetermined | dependencies.rb:18-23 | any graph that agrees with every entry in AddEdgesEffect is exactly `AddEdges`, so the method's loop has computed that graph |
| Graphs.RegisterStep | dependencies.rb:22 | registering one more child extends "the old graph with these children registered" by that child |
| Graphs.RegisterKeepsClosed | dependencies.rb:11 | a get-or-insert-empty lookup keeps every child a key |
| Graphs.AddEdgesKeepsClosed | dependencies.rb:19-22 | adding direct dependencies keeps every child a key |
| Graphs.AddEdgesIdempotent | dependencies.rb:19-22 | adding the same direct dependencies twice gives the same graph as adding them once |
| Graphs.AddEdgesGrows | dependencies.rb:22 | adding direct dependencies never removes a key nor lowers the size, and a new parent raises the size |
| Graphs.ClosedKeysAreNodes | dependencies.rb:14-16 | when every child is a key, the keys are exactly the nodes mentioned as parent or child |
| Graphs.EdgeIsReachable | dependencies.rb:28 | a direct dependency is reachable |
| Graphs.ReachableThenEdge | dependencies.rb:41 | a direct dependency of a reachable node is reachable |
| Graphs.WalkStaysInside | dependencies.rb:30-42 | a walk that starts in a set no edge leaves ends in that set |
| Graphs.ReachableStaysInside | dependencies.rb:30-42 | everything reachable from a member of a set no edge leaves lies in that set |
| Graphs.ReachableSetIs | dependencies.rb:25-45 | a set of reachable nodes that, together with the start node, no edge leaves is exactly the set of nodes reachable from the start node other than the start node itself |
| Graphs.UnknownReachesNothing | dependencies.rb:28 | nothing is reachable from a node that is not a key |
| Graphs.RegisterKeepsReachable | dependencies.rb:28 | registering a node changes reachability between no pair of nodes, so a repeated query has the same answer |
| Traversal.SearchStart | dependencies.rb:26-28 | the initial state (only `node` visited, its direct dependencies on the work-list, nothing recorded) satisfies the search invariant |
| Traversal.SearchSkip | dependencies.rb:31-35 | discarding a popped item that was already visited keeps the invariant |
| Traversal.SearchVisit | dependencies.rb:31-41 | visiting a popped new item, recording it and pushing its direct dependencies keeps the invariant and strictly lowers the number of unvisited keys |
| Traversal.SearchDone | dependencies.rb:30-42 | with the work-list empty, the recorded list holds, each once, exactly the nodes reachable from `node` other than `node` |
| Sorting.Insert | dependencies.rb:44 | inserting into a sorted sequence gives a sorted sequence with one more occurrence of the element, strictly sorted when the input was and the element is new |
| Sorting.Sort | dependencies.rb:44 | the result is ascending and a permutation of the input, strictly ascending when the input has no duplicates |
| Sorting.SortKeepsElements | dependencies.rb:44 | sorting keeps exactly the elements of the input |
| Sorting.StrictlySortedUnique | dependencies.rb:44 | two strictly ascending sequences with the same elements are equal, so the answer is determined by the set of reachable nodes |
| Scenarios.BasicScenario | tc_dependencies.rb:10-24 | on the basic test's graph the six queries return exactly the lists the test expects |
| Scenarios.BuildBasic | tc_dependencies.rb:11-16 | the six additions build exactly the basic test's graph |
| Scenarios.BasicReachability | tc_dependencies.rb:18-23 | every expected dependency in the basic test is reachable from its query node |
| Scenarios.CircularScenario | tc_dependencies.rb:29-35 | on the cycle A -> B -> C -> A, the query for A returns `[B, C]` and leaves A out |
| Scenarios.CycleAnswer | tc_dependencies.rb:34 | in the cycle, the only correct answer for A is `[B, C]` |
| Scenarios.AutoCreateScenario | tc_dependencies.rb:37-41 | adding the single edge A -> B makes two known nodes |
| Scenarios.SelfDependencyScenario | tc_dependencies.rb:43-47 | with the self-loop A -> A, the query for A returns `[]` |
| Scenarios.EmptyDependencyScenario | tc_dependencies.rb:49-53 | adding A with an empty list makes the query for A return `[]`, as the test expects; it also leaves one known node |
| Scenarios.UnknownNodeScenario | dependencies.rb:28 | on an empty store, querying A returns `[]`, the size becomes 1, and the graph afterwards is exactly A with no dependencies |
| Scenarios.RepeatedQuery | dependencies.rb:25-45 | two queries for the same node with no change in between return the same sequence, and together they only register the node |
| Scenarios.AnswerIs | dependencies.rb:25-45 | once the expected set is shown reachable and closed under edges, any strictly sorted answer that meets the query's contract equals the expected list |

## Left out

- `test_large` in tc_dependencies.rb:80-91 is not modelled. It builds a pseudorandom graph with integer nodes and prints the edge and node counts to the console, none of which is logic of the store.
- The compact array-based representation described in the comments of tc_dependencies.rb:55-79 is a design note with no code, so it is not modelled.
- Ruby's `Hash` and `Set` are modelled by their observable behaviour: a Dafny `map` with an explicit get-or-insert-empty lookup, and a Dafny `set`. `Set#merge` becomes set union, and `Set#to_a` becomes `SetToSeq`, whose order is left unconstrained.
- Nodes are fixed to `int`. The source accepts any hashable, comparable value. The tests modelled here use single-letter strings, which are mapped to 1..8 in alphabetical order.
- The library sort is replaced by an insertion sort. Only its result matters: an ascending permutation, which for a duplicate-free list is unique.
- Memory use, time complexity and thread safety are not modelled. The code has no concurrency, I/O or floating point.
- DependencyGraph.Dependencies.AddDirect: its postcondition gives the new graph as `AddEdges` of the old one. The explicit per-entry facts, idempotence and the growth of the size are the lemmas AddEdgesEffect, AddEdgesIdempotent and AddEdgesGrows about `AddEdges`, not further clauses on the method.
