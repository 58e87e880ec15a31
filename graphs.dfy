/**
  The value-level view of the dependency graph: a map from each known node to
  the set of its direct dependencies, the get-or-insert-empty lookup that the
  store performs on every access, the effect of adding direct dependencies,
  and reachability by one or more edges.
 */
module Graphs {

  /** Nodes are fixed to integers so that "sorted ascending" has a concrete meaning. */
  type Node = int

  /** Each known node mapped to the set of nodes it directly depends on. */
  type Graph = map<Node, set<Node>>

  /** The elements of a sequence of nodes, as a set. */
  function Elems(s: seq<Node>): (r: set<Node>)
  {
    set x | x in s
  }

  /** The direct dependencies of `n`; an unknown node has none. */
  function Get(g: Graph, n: Node): (r: set<Node>)
  {
    if n in g then g[n] else {}
  }

  /**
    Get-or-insert-empty: what the store's map does whenever a node is looked up.
    An unknown node becomes a key with no dependencies; nothing else changes.
   */
  function Register(g: Graph, n: Node): (r: Graph)
    ensures r.Keys == g.Keys + {n}
    ensures r[n] == Get(g, n)
    ensures forall k :: k in g ==> r[k] == g[k]
  {
    if n in g then g else g[n := {}]
  }

  /**
    The graph after `parent` is given the direct dependencies `children`:
    the parent's set grows by the children, and every child that was not yet
    known becomes a key with no dependencies.
   */
  function AddEdges(g: Graph, parent: Node, children: seq<Node>): (r: Graph)
    ensures r.Keys == g.Keys + {parent} + Elems(children)
    ensures r[parent] == Get(g, parent) + Elems(children)
  {
    var merged := g[parent := Get(g, parent) + Elems(children)];
    map k | k in merged.Keys + Elems(children) :: Get(merged, k)
  }

  /** Every node that appears as a child is itself a key (no dangling children). */
  ghost predicate Closed(g: Graph)
  {
    forall k :: k in g ==> g[k] <= g.Keys
  }

  /** Every node the graph mentions, as a parent or as a child. */
  ghost function Nodes(g: Graph): (r: set<Node>)
  {
    g.Keys + (set k, c | k in g && c in g[k] :: c)
  }

  /** `a` directly depends on `b`. */
  predicate Edge(g: Graph, a: Node, b: Node)
  {
    a in g && b in g[a]
  }

  /** Consecutive nodes of `p` are joined by edges. */
  ghost predicate IsWalk(g: Graph, p: seq<Node>)
  {
    forall i :: 0 <= i < |p| - 1 ==> Edge(g, p[i], p[i + 1])
  }

  /** `b` is reachable from `a` by ONE OR MORE edges. */
  ghost predicate Reachable(g: Graph, a: Node, b: Node)
  {
    exists p :: |p| >= 2 && p[0] == a && p[|p| - 1] == b && IsWalk(g, p)
  }

  /** No edge leaves the set `s`. */
  ghost predicate SuccessorClosed(g: Graph, s: set<Node>)
  {
    forall v, w :: v in s && Edge(g, v, w) ==> w in s
  }

  // ---------------------------------------------------------------------
  // Adding direct dependencies

  /** What adding direct dependencies does to every entry of the graph. */
  lemma AddEdgesEffect(g: Graph, parent: Node, children: seq<Node>)
    ensures AddEdges(g, parent, children).Keys == g.Keys + {parent} + Elems(children)
    ensures AddEdges(g, parent, children)[parent] == Get(g, parent) + Elems(children)
    ensures forall k :: k in g && k != parent ==> AddEdges(g, parent, children)[k] == g[k]
    ensures forall k :: k in Elems(children) && k !in g && k != parent ==> AddEdges(g, parent, children)[k] == {}
  {
  }

  /** A graph that agrees with every entry described by AddEdgesEffect is that graph. */
  lemma AddEdgesDetermined(g: Graph, parent: Node, children: seq<Node>, r: Graph)
    requires r.Keys == g.Keys + {parent} + Elems(children)
    requires r[parent] == Get(g, parent) + Elems(children)
    requires forall k :: k in g && k != parent ==> r[k] == g[k]
    requires forall k :: k in r && k !in g && k != parent ==> r[k] == {}
    ensures r == AddEdges(g, parent, children)
  {
    var a := AddEdges(g, parent, children);
    AddEdgesEffect(g, parent, children);
    forall k | k in r
      ensures r[k] == a[k]
    {
    }
  }

  /**
    `g` is `base` with every node of `cs` registered: the keys grew by `cs`,
    old entries are untouched and the new ones are empty.
   */
  ghost predicate RegisteredOver(base: Graph, g: Graph, cs: seq<Node>)
  {
    && g.Keys == base.Keys + Elems(cs)
    && (forall k :: k in base ==> g[k] == base[k])
    && (forall k :: k in g && k !in base ==> g[k] == {})
  }

  /** Registering one more node extends RegisteredOver by that node. */
  lemma RegisterStep(base: Graph, g: Graph, cs: seq<Node>, c: Node)
    requires RegisteredOver(base, g, cs)
    ensures RegisteredOver(base, Register(g, c), cs + [c])
  {
    ElemsSnoc(cs, c);
  }

  /** The elements of a sequence grown by one. */
  lemma ElemsSnoc(s: seq<Node>, x: Node)
    ensures Elems(s + [x]) == Elems(s) + {x}
  {
    assert forall y :: y in s + [x] <==> y in s || y == x;
  }

  /** Registering a node leaves no child dangling. */
  lemma RegisterKeepsClosed(g: Graph, n: Node)
    requires Closed(g)
    ensures Closed(Register(g, n))
  {
  }

  /** Adding direct dependencies leaves no child dangling. */
  lemma AddEdgesKeepsClosed(g: Graph, parent: Node, children: seq<Node>)
    requires Closed(g)
    ensures Closed(AddEdges(g, parent, children))
  {
    var r := AddEdges(g, parent, children);
    AddEdgesEffect(g, parent, children);
    forall k | k in r
      ensures r[k] <= r.Keys
    {
      if k != parent && k in g {
        assert r[k] == g[k];
      }
    }
  }

  /** Adding the same direct dependencies a second time changes nothing. */
  lemma AddEdgesIdempotent(g: Graph, parent: Node, children: seq<Node>)
    ensures AddEdges(AddEdges(g, parent, children), parent, children) == AddEdges(g, parent, children)
  {
    var r := AddEdges(g, parent, children);
    var r2 := AddEdges(r, parent, children);
    AddEdgesEffect(g, parent, children);
    AddEdgesEffect(r, parent, children);
    assert r2.Keys == r.Keys;
    forall k | k in r
      ensures r2[k] == r[k]
    {
    }
  }

  /** Cardinality of sets is monotone under inclusion. */
  lemma SubsetCardinality(a: set<Node>, b: set<Node>)
    requires a <= b
    ensures |a| <= |b|
  {
    assert b == a + (b - a);
    assert a * (b - a) == {};
  }

  /** The number of known nodes never decreases when direct dependencies are added. */
  lemma AddEdgesGrows(g: Graph, parent: Node, children: seq<Node>)
    ensures g.Keys <= AddEdges(g, parent, children).Keys
    ensures |g| <= |AddEdges(g, parent, children)|
    ensures parent !in g ==> |g| < |AddEdges(g, parent, children)|
  {
    var r := AddEdges(g, parent, children);
    AddEdgesEffect(g, parent, children);
    SubsetCardinality(g.Keys, r.Keys);
    if parent !in g {
      SubsetCardinality(g.Keys + {parent}, r.Keys);
    }
  }

  /** In a closed graph the keys are exactly the nodes it mentions: counting keys counts nodes. */
  lemma ClosedKeysAreNodes(g: Graph)
    requires Closed(g)
    ensures Nodes(g) == g.Keys
  {
    forall k, c | k in g && c in g[k]
      ensures c in g.Keys
    {
      assert g[k] <= g.Keys;
    }
  }

  // ---------------------------------------------------------------------
  // Reachability

  /** A single edge is a walk of length one. */
  lemma EdgeIsReachable(g: Graph, a: Node, b: Node)
    requires Edge(g, a, b)
    ensures Reachable(g, a, b)
  {
    var p := [a, b];
    assert IsWalk(g, p);
  }

  /** A walk to `b` extends by an edge out of `b`. */
  lemma ReachableThenEdge(g: Graph, a: Node, b: Node, c: Node)
    requires Reachable(g, a, b)
    requires Edge(g, b, c)
    ensures Reachable(g, a, c)
  {
    var p :| |p| >= 2 && p[0] == a && p[|p| - 1] == b && IsWalk(g, p);
    var q := p + [c];
    forall i | 0 <= i < |q| - 1
      ensures Edge(g, q[i], q[i + 1])
    {
      if i < |p| - 1 {
        assert q[i] == p[i] && q[i + 1] == p[i + 1];
      }
    }
    assert q[0] == a && q[|q| - 1] == c;
  }

  /** A walk that starts inside a successor-closed set ends inside it. */
  lemma {:induction false} WalkStaysInside(g: Graph, s: set<Node>, p: seq<Node>)
    requires SuccessorClosed(g, s)
    requires |p| >= 1 && p[0] in s
    requires IsWalk(g, p)
    ensures p[|p| - 1] in s
    decreases |p|
  {
    if |p| > 1 {
      assert Edge(g, p[0], p[1]);
      var t := p[1..];
      forall i | 0 <= i < |t| - 1
        ensures Edge(g, t[i], t[i + 1])
      {
        assert t[i] == p[i + 1] && t[i + 1] == p[i + 2];
      }
      WalkStaysInside(g, s, t);
    }
  }

  /** Everything reachable from a member of a successor-closed set lies in that set. */
  lemma ReachableStaysInside(g: Graph, s: set<Node>, a: Node)
    requires SuccessorClosed(g, s)
    requires a in s
    ensures forall b :: Reachable(g, a, b) ==> b in s
  {
    forall b | Reachable(g, a, b)
      ensures b in s
    {
      var p :| |p| >= 2 && p[0] == a && p[|p| - 1] == b && IsWalk(g, p);
      WalkStaysInside(g, s, p);
    }
  }

  /**
    Pins down the nodes reachable from `a`: every member of `s` is reachable,
    and no edge leaves `s` together with `a`.
   */
  lemma ReachableSetIs(g: Graph, a: Node, s: set<Node>)
    requires forall x :: x in s ==> Reachable(g, a, x)
    requires SuccessorClosed(g, s + {a})
    ensures forall x :: x != a ==> (Reachable(g, a, x) <==> x in s)
  {
    ReachableStaysInside(g, s + {a}, a);
  }

  /** A node that is not a key has no outgoing edges, so nothing is reachable from it. */
  lemma UnknownReachesNothing(g: Graph, a: Node, b: Node)
    requires a !in g
    ensures !Reachable(g, a, b)
  {
    forall p | |p| >= 2 && p[0] == a
      ensures !IsWalk(g, p)
    {
      assert !Edge(g, p[0], p[1]);
    }
  }

  /** Registering a node leaves reachability between all nodes unchanged. */
  lemma RegisterKeepsReachable(g: Graph, n: Node, a: Node, b: Node)
    ensures Reachable(Register(g, n), a, b) <==> Reachable(g, a, b)
  {
    var r := Register(g, n);
    assert forall x, y :: Edge(r, x, y) <==> Edge(g, x, y);
    if Reachable(r, a, b) {
      var p :| |p| >= 2 && p[0] == a && p[|p| - 1] == b && IsWalk(r, p);
      assert IsWalk(g, p);
    }
    if Reachable(g, a, b) {
      var p :| |p| >= 2 && p[0] == a && p[|p| - 1] == b && IsWalk(g, p);
      assert IsWalk(r, p);
    }
  }
}
