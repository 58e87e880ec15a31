/**
  The scenarios of the repository's unit tests, replayed against the store:
  each method builds a store the way a test does and its postcondition states
  the exact answers the test expects. Letters are numbered in alphabetical
  order, so ascending node order is the tests' alphabetical order.
 */
module Scenarios {
  import opened Graphs
  import opened Sorting
  import opened DependencyGraph

  const A: Node := 1
  const B: Node := 2
  const C: Node := 3
  const D: Node := 4
  const E: Node := 5
  const F: Node := 6
  const G: Node := 7
  const H: Node := 8

  /**
    A query's answer is fully determined once the expected set is shown to be
    reachable and closed under edges (together with the start node).
   */
  lemma AnswerIs(g: Graph, n: Node, s: set<Node>, expected: seq<Node>, r: seq<Node>)
    requires forall x :: x in s ==> Reachable(g, n, x)
    requires SuccessorClosed(g, s + {n})
    requires n !in s
    requires StrictlySorted(expected) && forall x :: x in expected <==> x in s
    requires StrictlySorted(r) && forall x :: x in r <==> x != n && Reachable(g, n, x)
    ensures r == expected
  {
    ReachableSetIs(g, n, s);
    StrictlySortedUnique(r, expected);
  }

  /** The graph the basic test builds. */
  function BasicGraph(): Graph
  {
    map[A := {B, C}, B := {C, E}, C := {G}, D := {A, F}, E := {F}, F := {H}, G := {}, H := {}]
  }

  /** Walks in the basic graph that reach every expected dependency. */
  lemma BasicReachability()
    ensures forall x :: x in {B, C, E, F, G, H} ==> Reachable(BasicGraph(), A, x)
    ensures forall x :: x in {C, E, F, G, H} ==> Reachable(BasicGraph(), B, x)
    ensures Reachable(BasicGraph(), C, G)
    ensures forall x :: x in {A, B, C, E, F, G, H} ==> Reachable(BasicGraph(), D, x)
    ensures forall x :: x in {F, H} ==> Reachable(BasicGraph(), E, x)
    ensures Reachable(BasicGraph(), F, H)
  {
    var g := BasicGraph();
    // F -> H, E -> F -> H
    EdgeIsReachable(g, F, H);
    EdgeIsReachable(g, E, F);
    ReachableThenEdge(g, E, F, H);
    // C -> G
    EdgeIsReachable(g, C, G);
    // B -> C -> G, B -> E -> F -> H
    EdgeIsReachable(g, B, C);
    ReachableThenEdge(g, B, C, G);
    EdgeIsReachable(g, B, E);
    ReachableThenEdge(g, B, E, F);
    ReachableThenEdge(g, B, F, H);
    // A -> B, A -> C -> G, A -> B -> E -> F -> H
    EdgeIsReachable(g, A, B);
    EdgeIsReachable(g, A, C);
    ReachableThenEdge(g, A, C, G);
    ReachableThenEdge(g, A, B, E);
    ReachableThenEdge(g, A, E, F);
    ReachableThenEdge(g, A, F, H);
    // D -> A -> ..., D -> F
    EdgeIsReachable(g, D, A);
    ReachableThenEdge(g, D, A, B);
    ReachableThenEdge(g, D, A, C);
    ReachableThenEdge(g, D, C, G);
    ReachableThenEdge(g, D, B, E);
    ReachableThenEdge(g, D, E, F);
    ReachableThenEdge(g, D, F, H);
  }

  /** The answers the basic test expects, by queried node. */
  function BasicExpected(n: Node): seq<Node>
  {
    if n == A then [B, C, E, F, G, H]
    else if n == B then [C, E, F, G, H]
    else if n == C then [G]
    else if n == D then [A, B, C, E, F, G, H]
    else if n == E then [F, H]
    else if n == F then [H]
    else []
  }

  /** Any answer that meets the query's contract on the basic graph is the expected one (A, B, C). */
  lemma BasicAnswerABC(n: Node, r: seq<Node>)
    requires StrictlySorted(r)
    requires forall x :: x in r <==> x != n && Reachable(BasicGraph(), n, x)
    requires n in {A, B, C}
    ensures r == BasicExpected(n)
  {
    var g := BasicGraph();
    BasicReachability();
    if n == A {
      AnswerIs(g, A, {B, C, E, F, G, H}, [B, C, E, F, G, H], r);
    } else if n == B {
      AnswerIs(g, B, {C, E, F, G, H}, [C, E, F, G, H], r);
    } else {
      AnswerIs(g, C, {G}, [G], r);
    }
  }

  /** Any answer that meets the query's contract on the basic graph is the expected one (D, E, F). */
  lemma BasicAnswerDEF(n: Node, r: seq<Node>)
    requires StrictlySorted(r)
    requires forall x :: x in r <==> x != n && Reachable(BasicGraph(), n, x)
    requires n in {D, E, F}
    ensures r == BasicExpected(n)
  {
    var g := BasicGraph();
    BasicReachability();
    if n == D {
      AnswerIs(g, D, {A, B, C, E, F, G, H}, [A, B, C, E, F, G, H], r);
    } else if n == E {
      AnswerIs(g, E, {F, H}, [F, H], r);
    } else {
      AnswerIs(g, F, {H}, [H], r);
    }
  }

  /** The graphs after each of the first five additions of the basic test. */
  const Stage1: Graph := map[A := {B, C}, B := {}, C := {}]
  const Stage2: Graph := map[A := {B, C}, B := {C, E}, C := {}, E := {}]
  const Stage3: Graph := map[A := {B, C}, B := {C, E}, C := {G}, E := {}, G := {}]
  const Stage4: Graph := map[A := {B, C}, B := {C, E}, C := {G}, D := {A, F}, E := {}, F := {}, G := {}]
  const Stage5: Graph := map[A := {B, C}, B := {C, E}, C := {G}, D := {A, F}, E := {F}, F := {}, G := {}]

  lemma BasicStage1()
    ensures AddEdges(map[], A, [B, C]) == Stage1
  {
    AddEdgesDetermined(map[], A, [B, C], Stage1);
  }

  lemma BasicStage2()
    ensures AddEdges(Stage1, B, [C, E]) == Stage2
  {
    AddEdgesDetermined(Stage1, B, [C, E], Stage2);
  }

  lemma BasicStage3()
    ensures AddEdges(Stage2, C, [G]) == Stage3
  {
    AddEdgesDetermined(Stage2, C, [G], Stage3);
  }

  lemma BasicStage4()
    ensures AddEdges(Stage3, D, [A, F]) == Stage4
  {
    AddEdgesDetermined(Stage3, D, [A, F], Stage4);
  }

  lemma BasicStage5()
    ensures AddEdges(Stage4, E, [F]) == Stage5
  {
    AddEdgesDetermined(Stage4, E, [F], Stage5);
  }

  lemma BasicStage6()
    ensures AddEdges(Stage5, F, [H]) == BasicGraph()
  {
    AddEdgesDetermined(Stage5, F, [H], BasicGraph());
  }

  /** The six direct-dependency lists of the basic test, added in order. */
  method BuildBasic() returns (deps: Dependencies)
    ensures fresh(deps)
    ensures deps.Valid()
    ensures deps.graph == BasicGraph()
  {
    deps := new Dependencies();
    deps.AddDirect(A, [B, C]);
    BasicStage1();
    deps.AddDirect(B, [C, E]);
    BasicStage2();
    deps.AddDirect(C, [G]);
    BasicStage3();
    deps.AddDirect(D, [A, F]);
    BasicStage4();
    deps.AddDirect(E, [F]);
    BasicStage5();
    deps.AddDirect(F, [H]);
    BasicStage6();
  }

  /** The basic test: the transitive dependencies of A to F. */
  method BasicScenario() returns (a: seq<Node>, b: seq<Node>, c: seq<Node>, d: seq<Node>, e: seq<Node>, f: seq<Node>)
    ensures a == [B, C, E, F, G, H]
    ensures b == [C, E, F, G, H]
    ensures c == [G]
    ensures d == [A, B, C, E, F, G, H]
    ensures e == [F, H]
    ensures f == [H]
  {
    var deps := BuildBasic();
    a := deps.DependenciesFor(A);
    BasicAnswerABC(A, a);
    b := deps.DependenciesFor(B);
    BasicAnswerABC(B, b);
    c := deps.DependenciesFor(C);
    BasicAnswerABC(C, c);
    d := deps.DependenciesFor(D);
    BasicAnswerDEF(D, d);
    e := deps.DependenciesFor(E);
    BasicAnswerDEF(E, e);
    f := deps.DependenciesFor(F);
    BasicAnswerDEF(F, f);
  }

  /** The graph the circular test builds: A -> B -> C -> A. */
  const Cycle: Graph := map[A := {B}, B := {C}, C := {A}]

  lemma CycleStages()
    ensures AddEdges(map[], A, [B]) == map[A := {B}, B := {}]
    ensures AddEdges(map[A := {B}, B := {}], B, [C]) == map[A := {B}, B := {C}, C := {}]
    ensures AddEdges(map[A := {B}, B := {C}, C := {}], C, [A]) == Cycle
  {
    assert AddEdges(map[], A, [B]) == map[A := {B}, B := {}] by {
      AddEdgesDetermined(map[], A, [B], map[A := {B}, B := {}]);
    }
    assert AddEdges(map[A := {B}, B := {}], B, [C]) == map[A := {B}, B := {C}, C := {}] by {
      AddEdgesDetermined(map[A := {B}, B := {}], B, [C], map[A := {B}, B := {C}, C := {}]);
    }
    AddEdgesDetermined(map[A := {B}, B := {C}, C := {}], C, [A], Cycle);
  }

  /** In the cycle, A reaches B and C and, through them, itself; the answer still leaves A out. */
  lemma CycleAnswer(r: seq<Node>)
    requires StrictlySorted(r)
    requires forall x :: x in r <==> x != A && Reachable(Cycle, A, x)
    ensures r == [B, C]
  {
    EdgeIsReachable(Cycle, A, B);
    ReachableThenEdge(Cycle, A, B, C);
    AnswerIs(Cycle, A, {B, C}, [B, C], r);
  }

  /** The circular test: A -> B -> C -> A, and A is not its own dependency. */
  method CircularScenario() returns (r: seq<Node>)
    ensures r == [B, C]
  {
    CycleStages();
    var deps := new Dependencies();
    deps.AddDirect(A, [B]);
    deps.AddDirect(B, [C]);
    deps.AddDirect(C, [A]);
    r := deps.DependenciesFor(A);
    CycleAnswer(r);
  }

  /** One edge A -> B makes two known nodes. */
  method AutoCreateScenario() returns (n: nat)
    ensures n == 2
  {
    var deps := new Dependencies();
    deps.AddDirect(A, [B]);
    AddEdgesDetermined(map[], A, [B], map[A := {B}, B := {}]);
    n := deps.Size();
    assert Nodes(deps.graph) == {A, B};
  }

  /** A self-loop A -> A: A is not its own dependency. */
  method SelfDependencyScenario() returns (r: seq<Node>)
    ensures r == []
  {
    var deps := new Dependencies();
    deps.AddDirect(A, [A]);
    var g := map[A := {A}];
    AddEdgesDetermined(map[], A, [A], g);
    r := deps.DependenciesFor(A);
    AnswerIs(g, A, {}, [], r);
  }

  /** An empty dependency list registers A alone and gives it no dependencies. */
  method EmptyDependencyScenario() returns (r: seq<Node>, n: nat)
    ensures r == []
    ensures n == 1
  {
    var deps := new Dependencies();
    deps.AddDirect(A, []);
    var g := map[A := {}];
    AddEdgesDetermined(map[], A, [], g);
    r := deps.DependenciesFor(A);
    AnswerIs(g, A, {}, [], r);
    n := deps.Size();
    assert Nodes(deps.graph) == {A};
  }

  /** Querying a node never added answers nothing, and the lookup registers that node. */
  method UnknownNodeScenario() returns (r: seq<Node>, n: nat, after: Graph)
    ensures r == []
    ensures n == 1
    ensures after == map[A := {}]
  {
    var deps := new Dependencies();
    r := deps.DependenciesFor(A);
    n := deps.Size();
    after := deps.graph;
    assert Nodes(after) == {A};
  }

  /** Two queries with no change in between give the same answer; the second changes nothing. */
  method RepeatedQuery(deps: Dependencies, n: Node) returns (first: seq<Node>, second: seq<Node>)
    requires deps.Valid()
    modifies deps
    ensures deps.Valid()
    ensures first == second
    ensures deps.graph == Register(old(deps.graph), n)
  {
    first := deps.DependenciesFor(n);
    ghost var g := deps.graph;
    second := deps.DependenciesFor(n);
    assert deps.graph == g;
    forall x
      ensures x in first <==> x in second
    {
      RegisterKeepsReachable(old(deps.graph), n, n, x);
    }
    StrictlySortedUnique(first, second);
  }
}
