/**
  The dependency store: a directed "depends-on" graph kept as a map from each
  known node to the set of its direct dependencies, with the operation that
  adds direct dependencies and the query that lists every transitive
  dependency of a node.
 */
module DependencyGraph {
  import opened Graphs
  import opened Sorting
  import opened Traversal

  /**
    The elements of a set, once each, in an order the caller cannot rely on
    (converting a set to an array).
   */
  method SetToSeq(s: set<Node>) returns (q: seq<Node>)
    ensures forall x :: x in q <==> x in s
    ensures NoDuplicates(q)
  {
    q := [];
    var rest := s;
    while exists y :: y in rest
      invariant rest <= s
      invariant forall x :: x in q <==> x in s && x !in rest
      invariant NoDuplicates(q)
      decreases rest
    {
      var y :| y in rest;
      q := q + [y];
      rest := rest - {y};
    }
  }

  class Dependencies {
    /** Each known node mapped to its direct dependencies. */
    var graph: Graph

    /** Every child of an edge is itself a known node. */
    ghost predicate Valid()
      reads this
    {
      Closed(graph)
    }

    /** An empty store. */
    constructor ()
      ensures Valid()
      ensures graph == map[]
    {
      graph := map[];
    }

    /** The number of distinct known nodes (as parent or as child), not the number of edges. */
    function Size(): (n: nat)
      reads this
      requires Valid()
      ensures n == |Nodes(graph)|
    {
      ClosedKeysAreNodes(graph);
      |graph|
    }

    /**
      Looks `node` up the way the store's map does: an unknown node is
      inserted with no dependencies before its set is returned.
     */
    method Lookup(node: Node) returns (deps: set<Node>)
      modifies this
      ensures graph == Register(old(graph), node)
      ensures deps == Get(old(graph), node)
    {
      if node !in graph {
        graph := graph[node := {}];
      }
      deps := graph[node];
    }

    /**
      Merges `children` into the direct dependencies of `parent`, then makes
      sure every child is a known node.
     */
    method AddDirect(parent: Node, children: seq<Node>)
      requires Valid()
      modifies this
      ensures Valid()
      ensures graph == AddEdges(old(graph), parent, children)
    {
      ghost var g0 := graph;
      var current := Lookup(parent);
      graph := graph[parent := current + Elems(children)];
      ghost var g1 := graph;
      assert Elems(children[..0]) == {};
      for i := 0 to |children|
        invariant RegisteredOver(g1, graph, children[..i])
      {
        assert children[..i + 1] == children[..i] + [children[i]];
        RegisterStep(g1, graph, children[..i], children[i]);
        var ignored := Lookup(children[i]);
      }
      assert children[..|children|] == children;
      AddEdgesDetermined(g0, parent, children, graph);
      AddEdgesKeepsClosed(g0, parent, children);
    }

    /**
      Every node that `node` depends on, directly or transitively, sorted
      ascending with no duplicates; `node` itself is never listed, even when
      a cycle leads back to it. Looking `node` up registers it if unknown.
     */
    method DependenciesFor(node: Node) returns (result: seq<Node>)
      requires Valid()
      modifies this
      ensures Valid()
      ensures graph == Register(old(graph), node)
      ensures StrictlySorted(result)
      ensures forall x :: x in result <==> x != node && Reachable(old(graph), node, x)
      ensures node !in result
      ensures node !in old(graph) ==> result == []
    {
      ghost var g0 := graph;
      var dependencies: seq<Node> := [];
      var visited: set<Node> := {node};
      var start := Lookup(node);
      var toVisit := SetToSeq(start);
      ghost var g := graph;
      RegisterKeepsClosed(g0, node);
      SearchStart(g, node, toVisit);

      while |toVisit| > 0
        invariant graph == g
        invariant SearchInvariant(g, node, visited, toVisit, dependencies)
        decreases |g.Keys - visited|, |toVisit|
      {
        ghost var before := toVisit;
        var current := toVisit[|toVisit| - 1];
        toVisit := toVisit[..|toVisit| - 1];
        if current in visited {
          SearchSkip(g, node, visited, before, dependencies);
          continue;
        }
        ghost var visitedBefore, depsBefore := visited, dependencies;
        visited := visited + {current};
        dependencies := dependencies + [current];
        var children := Lookup(current);
        var more := SetToSeq(children);
        SearchVisit(g, node, visitedBefore, before, depsBefore, more);
        toVisit := toVisit + more;
      }

      SearchDone(g, node, visited, dependencies);
      SortKeepsElements(dependencies);
      result := Sort(dependencies);
      forall x
        ensures Reachable(g, node, x) <==> Reachable(g0, node, x)
      {
        RegisterKeepsReachable(g0, node, node, x);
      }
      if node !in g0 {
        forall x
          ensures !Reachable(g0, node, x)
        {
          UnknownReachesNothing(g0, node, x);
        }
        StrictlySortedUnique(result, []);
      }
    }
  }
}
