/**
  The invariant of the work-list depth-first search that computes a node's
  transitive dependencies, and the steps that preserve it: start, discard an
  already visited item, visit a new item, and finish with an empty work-list.
 */
module Traversal {
  import opened Graphs
  import opened Sorting

  /**
    The state of a search from `n` in the closed graph `g`:
    - `n` is visited from the start, and everything visited is a known node;
    - everything on the work-list is a known node reachable from `n`;
    - everything visited other than `n` is reachable from `n`;
    - `deps` lists the visited nodes other than `n`, each once;
    - every edge out of a visited node leads to a visited node or to the work-list.
   */
  ghost predicate SearchInvariant(g: Graph, n: Node, visited: set<Node>, toVisit: seq<Node>, deps: seq<Node>)
  {
    && Closed(g) && n in g
    && n in visited && visited <= g.Keys
    && (forall i :: 0 <= i < |toVisit| ==> toVisit[i] in g && Reachable(g, n, toVisit[i]))
    && (forall v :: v in visited && v != n ==> Reachable(g, n, v))
    && (forall x :: x in deps <==> x in visited && x != n)
    && NoDuplicates(deps)
    && (forall v, w :: v in visited && Edge(g, v, w) ==> w in visited || w in toVisit)
  }

  /** Seeding: only `n` is visited, and the work-list holds exactly its direct dependencies. */
  lemma SearchStart(g: Graph, n: Node, toVisit: seq<Node>)
    requires Closed(g) && n in g
    requires forall x :: x in toVisit <==> x in g[n]
    ensures SearchInvariant(g, n, {n}, toVisit, [])
  {
    forall i | 0 <= i < |toVisit|
      ensures toVisit[i] in g && Reachable(g, n, toVisit[i])
    {
      assert toVisit[i] in toVisit;
      EdgeIsReachable(g, n, toVisit[i]);
    }
  }

  /** Popping an item that was already visited keeps the invariant. */
  lemma SearchSkip(g: Graph, n: Node, visited: set<Node>, toVisit: seq<Node>, deps: seq<Node>)
    requires SearchInvariant(g, n, visited, toVisit, deps)
    requires |toVisit| > 0 && toVisit[|toVisit| - 1] in visited
    ensures SearchInvariant(g, n, visited, toVisit[..|toVisit| - 1], deps)
  {
    var rest := toVisit[..|toVisit| - 1];
    forall v, w | v in visited && Edge(g, v, w)
      ensures w in visited || w in rest
    {
      if w !in visited {
        assert w in toVisit;
        var i :| 0 <= i < |toVisit| && toVisit[i] == w;
        assert i < |toVisit| - 1;
        assert rest[i] == w;
      }
    }
  }

  /**
    Popping an unvisited item `c`, marking it visited, recording it and
    pushing its direct dependencies `more` keeps the invariant, and leaves
    fewer unvisited known nodes.
   */
  lemma SearchVisit(g: Graph, n: Node, visited: set<Node>, toVisit: seq<Node>, deps: seq<Node>, more: seq<Node>)
    requires SearchInvariant(g, n, visited, toVisit, deps)
    requires |toVisit| > 0 && toVisit[|toVisit| - 1] !in visited
    requires forall x :: x in more <==> Edge(g, toVisit[|toVisit| - 1], x)
    ensures toVisit[|toVisit| - 1] in g
    ensures SearchInvariant(g, n, visited + {toVisit[|toVisit| - 1]}, toVisit[..|toVisit| - 1] + more,
                            deps + [toVisit[|toVisit| - 1]])
    ensures |g.Keys - (visited + {toVisit[|toVisit| - 1]})| < |g.Keys - visited|
  {
    var c := toVisit[|toVisit| - 1];
    var rest := toVisit[..|toVisit| - 1];
    var next := rest + more;
    var visited' := visited + {c};
    var deps' := deps + [c];
    assert c in g && Reachable(g, n, c);
    forall i | 0 <= i < |next|
      ensures next[i] in g && Reachable(g, n, next[i])
    {
      if i < |rest| {
        assert next[i] == toVisit[i];
      } else {
        assert next[i] == more[i - |rest|] && more[i - |rest|] in more;
        assert Edge(g, c, next[i]);
        ReachableThenEdge(g, n, c, next[i]);
      }
    }
    forall v, w | v in visited' && Edge(g, v, w)
      ensures w in visited' || w in next
    {
      if v == c {
        assert w in more;
        var j :| 0 <= j < |more| && more[j] == w;
        assert next[|rest| + j] == w;
      } else if w !in visited' {
        var i :| 0 <= i < |toVisit| && toVisit[i] == w;
        assert i < |toVisit| - 1;
        assert next[i] == w;
      }
    }
    forall i, j | 0 <= i < j < |deps'|
      ensures deps'[i] != deps'[j]
    {
      if j == |deps| {
        assert deps[i] in deps;
      }
    }
    var unvisited := g.Keys - visited;
    assert g.Keys - visited' == unvisited - {c};
    assert unvisited == (unvisited - {c}) + {c};
  }

  /** With the work-list empty, `deps` lists exactly the nodes reachable from `n` other than `n`. */
  lemma SearchDone(g: Graph, n: Node, visited: set<Node>, deps: seq<Node>)
    requires SearchInvariant(g, n, visited, [], deps)
    ensures forall x :: x in deps <==> x != n && Reachable(g, n, x)
    ensures NoDuplicates(deps)
  {
    assert SuccessorClosed(g, visited);
    ReachableStaysInside(g, visited, n);
  }
}
