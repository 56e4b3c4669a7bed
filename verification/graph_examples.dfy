/**
 * The reference graph of the traversal tests: nodes `start`,
 * `in-progress`, `finished`, `error` (ids 0..3) and edges start→in-progress,
 * in-progress→finished, in-progress→error, start→error. The traversal
 * results are worked out one loop turn (or one call) per lemma, against
 * any graph with the reference graph's shape.
 */
module GraphExamples {
  import opened Wrappers
  import opened Common
  import opened Graph
  import Bfs
  import Dfs
  import Reach

  function StrEq(): Equality<string> {
    (a: string, b: string) => a == b
  }

  function Reference(): Graph<string, int> {
    Graph([Node(0, "start"), Node(1, "in-progress"), Node(2, "finished"), Node(3, "error")],
          [Edge(0, 1, 0), Edge(1, 2, 0), Edge(1, 3, 0), Edge(0, 3, 0)], 4)
  }

  lemma ReferenceWellFormed()
    ensures WellFormed(Reference())
  {
    var g := Reference();
    assert forall i :: 0 <= i < 4 ==> g.nodes[i].id == i;
    assert forall k :: 0 <= k < 4 ==> g.edges[k].start < 4 && g.edges[k].end < 4;
  }

  lemma ReferenceChildren0()
    ensures WellFormed(Reference()) && ChildIds(Reference(), 0) == [1, 3]
  {
    ReferenceWellFormed();
    assert Outgoing(Reference(), 0) == [Edge(0, 1, 0), Edge(0, 3, 0)];
    assert OutgoingEnds(Reference(), 0) == [1, 3];
    assert ChildrenOf(Reference(), 0) == [Node(1, "in-progress"), Node(3, "error")];
  }

  lemma ReferenceChildren1()
    ensures WellFormed(Reference()) && ChildIds(Reference(), 1) == [2, 3]
  {
    ReferenceWellFormed();
    assert Outgoing(Reference(), 1) == [Edge(1, 2, 0), Edge(1, 3, 0)];
    assert OutgoingEnds(Reference(), 1) == [2, 3];
    assert ChildrenOf(Reference(), 1) == [Node(2, "finished"), Node(3, "error")];
  }

  lemma ReferenceChildren2()
    ensures WellFormed(Reference()) && ChildIds(Reference(), 2) == []
  {
    ReferenceWellFormed();
    assert Outgoing(Reference(), 2) == [];
    assert OutgoingEnds(Reference(), 2) == [];
  }

  lemma ReferenceChildren3()
    ensures WellFormed(Reference()) && ChildIds(Reference(), 3) == []
  {
    ReferenceWellFormed();
    assert Outgoing(Reference(), 3) == [];
    assert OutgoingEnds(Reference(), 3) == [];
  }

  /** Four dense nodes whose children are 0:[1,3], 1:[2,3], 2:[], 3:[]. */
  ghost predicate ShapedLikeReference(g: Graph<string, int>) {
    && WellFormed(g) && |g.nodes| == 4
    && ChildIds(g, 0) == [1, 3] && ChildIds(g, 1) == [2, 3]
    && ChildIds(g, 2) == [] && ChildIds(g, 3) == []
  }

  /** The reference graph has the reference shape. */
  lemma ReferenceShape()
    ensures ShapedLikeReference(Reference())
  {
    ReferenceWellFormed();
    ReferenceChildren0();
    ReferenceChildren1();
    ReferenceChildren2();
    ReferenceChildren3();
  }

  // Breadth-first from the default start: [0, 1, 3, 2].

  lemma PlanOfStart()
    ensures Bfs.Plan([1, 3], [], {0}) == ([1, 3], {0, 1, 3})
  {
    assert [1, 3][1..] == [3] && [3][1..] == [];
    assert [] + [1] == [1] && [1] + [3] == [1, 3];
    assert {0} + {1} + {3} == {0, 1, 3};
  }

  lemma PlanOfInProgress()
    ensures Bfs.Plan([2, 3], [3], {0, 1, 3}) == ([3, 2], {0, 1, 2, 3})
  {
    assert [2, 3][1..] == [3] && [3][1..] == [];
    assert [3] + [2] == [3, 2];
    assert {0, 1, 3} + {2} == {0, 1, 2, 3};
  }

  lemma BfsTurn4(g: Graph<string, int>)
    requires WellFormed(g) && |g.nodes| == 4 && ChildIds(g, 2) == []
    ensures Bfs.Loop(g, [2], {0, 1, 2, 3}, [0, 1, 3]) == [0, 1, 3, 2]
  {
    assert [0, 1, 3] + [2] == [0, 1, 3, 2];
    assert Bfs.Plan([], [], {0, 1, 2, 3}) == ([], {0, 1, 2, 3});
  }

  lemma BfsTurn3(g: Graph<string, int>)
    requires WellFormed(g) && |g.nodes| == 4 && ChildIds(g, 3) == []
    requires Bfs.Loop(g, [2], {0, 1, 2, 3}, [0, 1, 3]) == [0, 1, 3, 2]
    ensures Bfs.Loop(g, [3, 2], {0, 1, 2, 3}, [0, 1]) == [0, 1, 3, 2]
  {
    assert [3, 2][1..] == [2];
    assert Bfs.Plan([], [2], {0, 1, 2, 3}) == ([2], {0, 1, 2, 3});
    assert [0, 1] + [3] == [0, 1, 3];
  }

  lemma BfsTurn2(g: Graph<string, int>)
    requires WellFormed(g) && |g.nodes| == 4 && ChildIds(g, 1) == [2, 3]
    requires Bfs.Loop(g, [3, 2], {0, 1, 2, 3}, [0, 1]) == [0, 1, 3, 2]
    ensures Bfs.Loop(g, [1, 3], {0, 1, 3}, [0]) == [0, 1, 3, 2]
  {
    assert [1, 3][1..] == [3];
    PlanOfInProgress();
    assert [0] + [1] == [0, 1];
  }

  lemma BfsTurn1(g: Graph<string, int>)
    requires WellFormed(g) && |g.nodes| == 4 && ChildIds(g, 0) == [1, 3]
    requires Bfs.Loop(g, [1, 3], {0, 1, 3}, [0]) == [0, 1, 3, 2]
    ensures Bfs.Loop(g, [0], {0}, []) == [0, 1, 3, 2]
  {
    PlanOfStart();
    assert [0][1..] == [];
    assert [] + [0] == [0];
  }

  /** A start inside the graph is traversed by running the loop from it alone. */
  lemma TraverseRunsLoop(g: Graph<string, int>, start: Option<int>, s: nat)
    requires WellFormed(g) && Bfs.BfsStart(g, start) == s && s < |g.nodes|
    ensures Bfs.Traverse(g, start) == Success(Bfs.Loop(g, [s], {s}, []))
  {
  }

  /** With no start given, the traversal of the reference graph yields 0, 1, 3, 2. */
  lemma BfsReference(g: Graph<string, int>)
    requires ShapedLikeReference(g)
    ensures Bfs.Traverse(g, None) == Success([0, 1, 3, 2])
  {
    BfsTurn4(g);
    BfsTurn3(g);
    BfsTurn2(g);
    BfsTurn1(g);
    TraverseRunsLoop(g, None, 0);
  }

  /**
   * On the reference graph, the id order 0, 1, 2, 3 is not a breadth-first
   * order: 3 is found by 0 and 2 only by 1, so 3 must come first.
   */
  lemma IdOrderIsNotBfs(g: Graph<string, int>)
    requires ShapedLikeReference(g)
    ensures !Bfs.IsBfsOrder(g, 0, [0, 1, 2, 3])
    ensures Bfs.IsBfsOrder(g, 0, [0, 1, 3, 2])
  {
    BfsReference(g);
    Bfs.TraverseIsTheBfsOrder(g, None, [0, 1, 2, 3]);
    assert [0, 1, 2, 3][2] != [0, 1, 3, 2][2];
  }

  // Breadth-first from in-progress: [1, 2, 3].

  lemma PlanOfInProgressAlone()
    ensures Bfs.Plan([2, 3], [], {1}) == ([2, 3], {1, 2, 3})
  {
    assert [2, 3][1..] == [3] && [3][1..] == [];
    assert [] + [2] == [2] && [2] + [3] == [2, 3];
    assert {1} + {2} + {3} == {1, 2, 3};
  }

  lemma BfsFromInProgressTurn3(g: Graph<string, int>)
    requires WellFormed(g) && |g.nodes| == 4 && ChildIds(g, 3) == []
    ensures Bfs.Loop(g, [3], {1, 2, 3}, [1, 2]) == [1, 2, 3]
  {
    assert [1, 2] + [3] == [1, 2, 3];
    assert Bfs.Plan([], [], {1, 2, 3}) == ([], {1, 2, 3});
  }

  lemma BfsFromInProgressTurn2(g: Graph<string, int>)
    requires WellFormed(g) && |g.nodes| == 4 && ChildIds(g, 2) == []
    requires Bfs.Loop(g, [3], {1, 2, 3}, [1, 2]) == [1, 2, 3]
    ensures Bfs.Loop(g, [2, 3], {1, 2, 3}, [1]) == [1, 2, 3]
  {
    assert [2, 3][1..] == [3];
    assert Bfs.Plan([], [3], {1, 2, 3}) == ([3], {1, 2, 3});
    assert [1] + [2] == [1, 2];
  }

  lemma BfsFromInProgressTurn1(g: Graph<string, int>)
    requires WellFormed(g) && |g.nodes| == 4 && ChildIds(g, 1) == [2, 3]
    requires Bfs.Loop(g, [2, 3], {1, 2, 3}, [1]) == [1, 2, 3]
    ensures Bfs.Loop(g, [1], {1}, []) == [1, 2, 3]
  {
    PlanOfInProgressAlone();
    assert [1][1..] == [];
    assert [] + [1] == [1];
  }

  /** From in-progress the traversal of the reference graph yields 1, 2, 3. */
  lemma BfsReferenceFromInProgress(g: Graph<string, int>)
    requires ShapedLikeReference(g)
    ensures Bfs.Traverse(g, Some(1)) == Success([1, 2, 3])
  {
    BfsFromInProgressTurn3(g);
    BfsFromInProgressTurn2(g);
    BfsFromInProgressTurn1(g);
    TraverseRunsLoop(g, Some(1), 1);
  }

  /** An unknown start, and the empty graph with no start, fail before anything is yielded. */
  lemma BfsFailures(g: Graph<string, int>)
    requires ShapedLikeReference(g)
    ensures Bfs.Traverse(g, Some(15)) == Failure(NodeNotExist)
    ensures Bfs.Traverse(Empty<string, int>(), None) == Failure(NodeNotExist)
  {
  }

  // Depth-first, post-order: [2, 3, 1, 0] over the whole graph.

  /** A node without children is yielded alone, and only it turns grey. */
  lemma VisitLeaf<NV, W>(g: Graph<NV, W>, v: nat, grey: set<nat>)
    requires WellFormed(g) && v < |g.nodes| && v !in grey && grey <= Reach.Ids(g)
    requires ChildIds(g, v) == []
    ensures Dfs.Visit(g, v, grey) == ([v], grey + {v})
  {
    assert [] + [v] == [v];
  }

  /** The node ids of a four-node graph, as a literal set. */
  lemma IdsOfFour<NV, W>(g: Graph<NV, W>)
    requires |g.nodes| == 4
    ensures Reach.Ids(g) == {0, 1, 2, 3}
  {
    assert forall x :: x in Reach.Ids(g) ==> x in {0, 1, 2, 3};
  }

  /** Two distinct childless nodes, both white, are yielded in list order. */
  lemma ChildrenLeaves<NV, W>(g: Graph<NV, W>, a: nat, b: nat, grey: set<nat>)
    requires WellFormed(g) && a < |g.nodes| && b < |g.nodes| && a != b
    requires a !in grey && b !in grey && grey <= Reach.Ids(g)
    requires ChildIds(g, a) == [] && ChildIds(g, b) == []
    ensures Dfs.Children(g, [a, b], grey) == ([a, b], grey + {a, b})
  {
    VisitLeaf(g, a, grey);
    VisitLeaf(g, b, grey + {a});
    assert [a, b][1..] == [b] && [b][1..] == [];
    assert Dfs.Children(g, [b], grey + {a}) == ([b] + [], grey + {a} + {b});
    assert [a] + [b] == [a, b] && [b] + [] == [b];
    assert grey + {a} + {b} == grey + {a, b};
  }

  lemma DfsUnder0(g: Graph<string, int>)
    requires WellFormed(g) && |g.nodes| == 4 && Reach.Ids(g) == {0, 1, 2, 3} && ChildIds(g, 1) == [2, 3]
    requires Dfs.Children(g, [2, 3], {0, 1}) == ([2, 3], {0, 1, 2, 3})
    ensures Dfs.Children(g, [1, 3], {0}) == ([2, 3, 1], {0, 1, 2, 3})
  {
    assert {0} + {1} == {0, 1};
    assert Dfs.Visit(g, 1, {0}) == ([2, 3] + [1], {0, 1, 2, 3});
    assert [1, 3][1..] == [3] && [3][1..] == [];
    assert Dfs.Children(g, [3], {0, 1, 2, 3}) == ([], {0, 1, 2, 3});
    assert [2, 3] + [1] == [2, 3, 1] && [2, 3, 1] + [] == [2, 3, 1];
  }

  lemma DfsFrom0(g: Graph<string, int>)
    requires WellFormed(g) && |g.nodes| == 4 && Reach.Ids(g) == {0, 1, 2, 3} && ChildIds(g, 0) == [1, 3]
    requires Dfs.Children(g, [1, 3], {0}) == ([2, 3, 1], {0, 1, 2, 3})
    ensures Dfs.Visit(g, 0, {}) == ([2, 3, 1, 0], {0, 1, 2, 3})
  {
    assert {} + {0} == {0};
    assert [2, 3, 1] + [0] == [2, 3, 1, 0];
  }

  lemma DfsAllRest(g: Graph<string, int>)
    requires WellFormed(g) && |g.nodes| == 4 && Reach.Ids(g) == {0, 1, 2, 3}
    ensures Dfs.All(g, 1, {0, 1, 2, 3}) == []
  {
    assert Dfs.All(g, 4, {0, 1, 2, 3}) == [];
    assert Dfs.All(g, 3, {0, 1, 2, 3}) == [];
    assert Dfs.All(g, 2, {0, 1, 2, 3}) == [];
  }

  lemma DfsAll(g: Graph<string, int>)
    requires WellFormed(g) && |g.nodes| == 4 && Reach.Ids(g) == {0, 1, 2, 3}
    requires Dfs.Visit(g, 0, {}) == ([2, 3, 1, 0], {0, 1, 2, 3})
    ensures Dfs.All(g, 0, {}) == [2, 3, 1, 0]
  {
    DfsAllRest(g);
    assert [2, 3, 1, 0] + [] == [2, 3, 1, 0];
  }

  lemma LeavesUnder1(g: Graph<string, int>)
    requires WellFormed(g) && |g.nodes| == 4 && {0, 1} <= Reach.Ids(g)
    requires ChildIds(g, 2) == [] && ChildIds(g, 3) == []
    ensures Dfs.Children(g, [2, 3], {0, 1}) == ([2, 3], {0, 1, 2, 3})
  {
    ChildrenLeaves(g, 2, 3, {0, 1});
    assert {0, 1} + {2, 3} == {0, 1, 2, 3};
  }

  /** `dfs(start)` on the reference graph yields 2, 3, 1, 0. */
  lemma DfsVisitReference(g: Graph<string, int>)
    requires ShapedLikeReference(g)
    ensures Dfs.Visit(g, 0, {}) == ([2, 3, 1, 0], {0, 1, 2, 3})
  {
    IdsOfFour(g);
    LeavesUnder1(g);
    DfsUnder0(g);
    DfsFrom0(g);
  }

  /**
   * The reference graph gives 2, 3, 1, 0 in unordered mode, whatever the
   * start, and in ordered mode from the default start.
   */
  lemma DfsReference(g: Graph<string, int>, start: Option<int>)
    requires ShapedLikeReference(g)
    ensures Dfs.Traverse(g, Dfs.Options(None, start)) == Success([2, 3, 1, 0])
    ensures Dfs.Traverse(g, Dfs.Options(Some(Dfs.Unordered), start)) == Success([2, 3, 1, 0])
    ensures Dfs.Traverse(g, Dfs.Options(Some(Dfs.Ordered), None)) == Success([2, 3, 1, 0])
  {
    IdsOfFour(g);
    DfsVisitReference(g);
    DfsAll(g);
  }

  /**
   * On the reference graph, `[3, 2, 1, 0]` is a post-order with every node
   * once, but not the depth-first order: 1 enters its children in id order,
   * so 2 finishes before 3.
   */
  lemma ReverseIdOrderIsNotDfs(g: Graph<string, int>)
    requires ShapedLikeReference(g)
    ensures !Dfs.IsUnorderedDfs(g, [3, 2, 1, 0])
    ensures Dfs.IsUnorderedDfs(g, [2, 3, 1, 0])
    ensures !Dfs.IsOrderedDfs(g, 0, [3, 2, 1, 0])
  {
    DfsReference(g, None);
    Dfs.TraverseIsTheDfsOrder(g, Dfs.Options(Some(Dfs.Ordered), None), [3, 2, 1, 0]);
    Dfs.TraverseIsTheDfsOrder(g, Dfs.Options(None, None), [3, 2, 1, 0]);
    Dfs.TraverseIsTheDfsOrder(g, Dfs.Options(None, None), [2, 3, 1, 0]);
    assert [3, 2, 1, 0][0] != [2, 3, 1, 0][0];
  }

  /** Ordered mode from in-progress yields 2, 3, 1. */
  lemma DfsReferenceFromInProgress(g: Graph<string, int>)
    requires ShapedLikeReference(g)
    ensures Dfs.Traverse(g, Dfs.Options(Some(Dfs.Ordered), Some(1))) == Success([2, 3, 1])
  {
    IdsOfFour(g);
    ChildrenLeaves(g, 2, 3, {1});
    assert {1} + {2, 3} == {1, 2, 3};
    DfsFrom1(g);
  }

  lemma DfsFrom1(g: Graph<string, int>)
    requires WellFormed(g) && |g.nodes| == 4 && Reach.Ids(g) == {0, 1, 2, 3} && ChildIds(g, 1) == [2, 3]
    requires Dfs.Children(g, [2, 3], {1}) == ([2, 3], {1, 2, 3})
    ensures Dfs.Visit(g, 1, {}) == ([2, 3, 1], {1, 2, 3})
  {
    assert {} + {1} == {1};
    assert [2, 3] + [1] == [2, 3, 1];
  }

  /** Ordered mode fails on the empty graph and on an unknown start; unordered mode on the empty graph yields nothing. */
  lemma DfsFailures(g: Graph<string, int>)
    requires ShapedLikeReference(g)
    ensures Dfs.Traverse(Empty<string, int>(), Dfs.Options(Some(Dfs.Ordered), None)) == Failure(GraphEmptyOrderedDfs)
    ensures Dfs.Traverse(g, Dfs.Options(Some(Dfs.Ordered), Some(15))) == Failure(NodeNotExist)
    ensures Dfs.Traverse(Empty<string, int>(), Dfs.Options(None, None)) == Success([])
  {
  }
}
