/**
 * `traverseGraphDfs`: depth-first traversal yielding nodes in post-order.
 * Entering a node greys it; only white children are entered. The
 * generator is modelled by the finite sequence of node ids it yields.
 */
module Dfs {
  import opened Wrappers
  import opened Common
  import opened Seqs
  import opened Graph
  import opened Reach

  datatype Mode = Ordered | Unordered

  /** `{ mode?, startNodeId? }`. */
  datatype Options = Options(mode: Option<Mode>, startNodeId: Option<int>)

  /**
   * The inner generator `dfs(nodeId)`: grey the node, enter every white
   * child in child order, then yield the node itself. `r.1` is the grey
   * set afterwards.
   */
  function Visit<NV, W>(g: Graph<NV, W>, v: nat, grey: set<nat>): (r: (seq<nat>, set<nat>))
    requires WellFormed(g) && v < |g.nodes| && v !in grey && grey <= Ids(g)
    ensures grey + {v} <= r.1 <= Ids(g)
    decreases Ids(g) - grey, 0
  {
    var (out, grey') := Children(g, ChildIds(g, v), grey + {v});
    (out + [v], grey')
  }

  /** The `for (const w of children)` loop of `dfs`, over the children left in `cs`. */
  function Children<NV, W>(g: Graph<NV, W>, cs: seq<nat>, grey: set<nat>): (r: (seq<nat>, set<nat>))
    requires WellFormed(g) && grey <= Ids(g)
    requires forall k :: 0 <= k < |cs| ==> cs[k] < |g.nodes|
    ensures grey <= r.1 <= Ids(g)
    decreases Ids(g) - grey, 1, |cs|
  {
    if |cs| == 0 then ([], grey)
    else if cs[0] in grey then Children(g, cs[1..], grey)
    else
      var (o1, g1) := Visit(g, cs[0], grey);
      var (o2, g2) := Children(g, cs[1..], g1);
      (o1 + o2, g2)
  }

  /** Unordered mode: every node id, in node order, is entered if still white. */
  function All<NV, W>(g: Graph<NV, W>, i: nat, grey: set<nat>): (r: seq<nat>)
    requires WellFormed(g) && i <= |g.nodes| && grey <= Ids(g)
    ensures forall x :: x in r ==> x < |g.nodes| && x !in grey
    decreases |g.nodes| - i
  {
    if i == |g.nodes| then []
    else if i in grey then All(g, i + 1, grey)
    else
      var (o, g1) := Visit(g, i, grey);
      VisitGreys(g, i, grey);
      assert forall x :: x in o ==> x in g1 && x !in grey;
      o + All(g, i + 1, g1)
  }

  /**
   * The ordered-mode start, `options.startNodeId || graph.nodes[0]?.id`:
   * a missing or zero start falls back to the first node, if any.
   */
  function OrderedStart<NV, W>(g: Graph<NV, W>, start: Option<int>): (s: Option<int>)
    requires WellFormed(g)
    ensures start.Some? && start.value != 0 ==> s == start
    ensures (start.None? || start.value == 0) ==> (s.Some? <==> |g.nodes| > 0)
    ensures s.Some? && (start.None? || start.value == 0) ==> s.value == 0
  {
    if start.Some? && start.value != 0 then start
    else if |g.nodes| > 0 then Some(g.nodes[0].id)
    else None
  }

  /**
   * The traversal. Unordered mode (the default) ignores the start and
   * covers every node. Ordered mode on an empty graph with no usable start
   * fails with GRAPH_EMPTY_ORDERED_DFS, and with an unknown start fails
   * with NODE_NOT_EXIST_ERROR, before anything is yielded.
   */
  function Traverse<NV, W>(g: Graph<NV, W>, options: Options): (r: Result<seq<nat>, Error>)
    requires WellFormed(g)
    ensures options.mode != Some(Ordered) ==> r.Success?
    ensures options.mode == Some(Ordered) ==>
      match OrderedStart(g, options.startNodeId)
      case None => r == Failure(GraphEmptyOrderedDfs)
      case Some(s) => (r.Failure? <==> !(0 <= s < |g.nodes|)) && (r.Failure? ==> r.error == NodeNotExist)
  {
    if options.mode != Some(Ordered) then Success(All(g, 0, {}))
    else match OrderedStart(g, options.startNodeId)
      case None => Failure(GraphEmptyOrderedDfs)
      case Some(s) =>
        if GetNodeChildrenById(g, s).Failure? then Failure(NodeNotExist)
        else Success(Visit(g, s, {}).0)
  }

  /** `r.1` is `grey` plus exactly the yielded nodes, which were white and are yielded once. */
  ghost predicate GreysYielded(grey: set<nat>, r: (seq<nat>, set<nat>)) {
    && (forall x :: x in r.1 <==> x in grey || x in r.0)
    && (forall x :: x in r.0 ==> x !in grey)
    && NoDups(r.0)
  }

  /**
   * Post-order: a child `c` of a yielded node was grey before the call, or
   * was yielded earlier, or is an ancestor still on the stack, and then
   * reaches the node (the edge closes a cycle).
   */
  ghost predicate PostOrder<NV, W>(g: Graph<NV, W>, out: seq<nat>, grey: set<nat>) {
    forall k :: 0 <= k < |out| ==> ChildrenSettled(g, out[k], out[..k], grey)
  }

  /** Every child of `u` is in `grey`, or in `before`, or reaches `u`. */
  ghost predicate ChildrenSettled<NV, W>(g: Graph<NV, W>, u: nat, before: seq<nat>, grey: set<nat>) {
    forall c: nat :: HasEdge(g, u, c) ==> c in grey || c in before || Reachable(g, c, u)
  }

  lemma {:induction false} VisitGreys<NV, W>(g: Graph<NV, W>, v: nat, grey: set<nat>)
    requires WellFormed(g) && v < |g.nodes| && v !in grey && grey <= Ids(g)
    ensures var r := Visit(g, v, grey);
      GreysYielded(grey, r) && |r.0| > 0 && r.0[|r.0| - 1] == v
    decreases Ids(g) - grey, 0
  {
    var cs := ChildIds(g, v);
    var r := Children(g, cs, grey + {v});
    ChildrenGreys(g, cs, grey + {v});
    NoDupsConcat(r.0, [v]);
  }

  lemma {:induction false} ChildrenGreys<NV, W>(g: Graph<NV, W>, cs: seq<nat>, grey: set<nat>)
    requires WellFormed(g) && grey <= Ids(g)
    requires forall k :: 0 <= k < |cs| ==> cs[k] < |g.nodes|
    ensures ChildrenGreyed(cs, grey, Children(g, cs, grey))
    decreases Ids(g) - grey, 1, |cs|, 1
  {
    if |cs| > 0 {
      if cs[0] in grey {
        ChildrenGreysSkip(g, cs, grey);
      } else {
        ChildrenGreysStep(g, cs, grey);
      }
    }
  }

  /** The grey set grows by exactly the yielded nodes, and every child ends grey. */
  ghost predicate ChildrenGreyed(cs: seq<nat>, grey: set<nat>, r: (seq<nat>, set<nat>)) {
    GreysYielded(grey, r) && forall k :: 0 <= k < |cs| ==> cs[k] in r.1
  }

  lemma {:induction false} ChildrenGreysSkip<NV, W>(g: Graph<NV, W>, cs: seq<nat>, grey: set<nat>)
    requires WellFormed(g) && grey <= Ids(g)
    requires forall k :: 0 <= k < |cs| ==> cs[k] < |g.nodes|
    requires |cs| > 0 && cs[0] in grey
    ensures ChildrenGreyed(cs, grey, Children(g, cs, grey))
    decreases Ids(g) - grey, 1, |cs|, 0
  {
    var r := Children(g, cs[1..], grey);
    ChildrenGreys(g, cs[1..], grey);
    ChildrenSkips(g, cs, grey);
    assert ChildrenGreyed(cs, grey, r) by {
      forall k | 0 <= k < |cs| ensures cs[k] in r.1 {
        if k > 0 {
          TailAt(cs, k);
        }
      }
    }
    GreyedSame(cs, grey, r, Children(g, cs, grey));
  }

  lemma {:induction false} ChildrenGreysStep<NV, W>(g: Graph<NV, W>, cs: seq<nat>, grey: set<nat>)
    requires WellFormed(g) && grey <= Ids(g)
    requires forall k :: 0 <= k < |cs| ==> cs[k] < |g.nodes|
    requires |cs| > 0 && cs[0] !in grey
    ensures ChildrenGreyed(cs, grey, Children(g, cs, grey))
    decreases Ids(g) - grey, 1, |cs|, 0
  {
    var r1 := Visit(g, cs[0], grey);
    VisitGreys(g, cs[0], grey);
    var r2 := Children(g, cs[1..], r1.1);
    ChildrenGreys(g, cs[1..], r1.1);
    var r := (r1.0 + r2.0, r2.1);
    GreysCompose(grey, r1, r2);
    assert ChildrenGreyed(cs, grey, r) by {
      forall k | 0 <= k < |cs| ensures cs[k] in r.1 {
        if k > 0 {
          TailAt(cs, k);
        }
      }
    }
    ChildrenVisits(g, cs, grey);
    GreyedSame(cs, grey, r, Children(g, cs, grey));
  }

  /** A grey first child is passed over. */
  lemma ChildrenSkips<NV, W>(g: Graph<NV, W>, cs: seq<nat>, grey: set<nat>)
    requires WellFormed(g) && grey <= Ids(g)
    requires forall k :: 0 <= k < |cs| ==> cs[k] < |g.nodes|
    requires |cs| > 0 && cs[0] in grey
    ensures Children(g, cs, grey) == Children(g, cs[1..], grey)
  {
  }

  /** A white first child is visited, and the rest go on from the grey set it leaves. */
  lemma ChildrenVisits<NV, W>(g: Graph<NV, W>, cs: seq<nat>, grey: set<nat>)
    requires WellFormed(g) && grey <= Ids(g)
    requires forall k :: 0 <= k < |cs| ==> cs[k] < |g.nodes|
    requires |cs| > 0 && cs[0] !in grey
    ensures var r1 := Visit(g, cs[0], grey);
      && r1.1 <= Ids(g)
      && Children(g, cs, grey) == (r1.0 + Children(g, cs[1..], r1.1).0, Children(g, cs[1..], r1.1).1)
  {
  }

  /** The greying facts are about the pair, whatever term denotes it. */
  lemma GreyedSame(cs: seq<nat>, grey: set<nat>, a: (seq<nat>, set<nat>), b: (seq<nat>, set<nat>))
    requires a == b && ChildrenGreyed(cs, grey, a)
    ensures ChildrenGreyed(cs, grey, b)
  {
  }

  /** Two runs in a row, the second from where the first left the grey set, compose. */
  lemma GreysCompose(grey: set<nat>, r1: (seq<nat>, set<nat>), r2: (seq<nat>, set<nat>))
    requires GreysYielded(grey, r1) && GreysYielded(r1.1, r2)
    ensures GreysYielded(grey, (r1.0 + r2.0, r2.1))
  {
    forall i, j | 0 <= i < |r1.0| && 0 <= j < |r2.0| ensures r1.0[i] != r2.0[j] {
      assert r1.0[i] in r1.1;
      assert r2.0[j] in r2.0;
    }
    NoDupsConcat(r1.0, r2.0);
  }

  /** What `dfs(v)` yields is reachable from `v`, and every child of it ends grey. */
  lemma {:induction false} VisitReach<NV, W>(g: Graph<NV, W>, v: nat, grey: set<nat>)
    requires WellFormed(g) && v < |g.nodes| && v !in grey && grey <= Ids(g)
    ensures var r := Visit(g, v, grey);
      (forall x :: x in r.0 ==> Reachable(g, v, x)) && ChildrenGrey(g, r.0, r.1)
    decreases Ids(g) - grey, 0
  {
    var cs := ChildIds(g, v);
    var r := Children(g, cs, grey + {v});
    ChildrenGreys(g, cs, grey + {v});
    ChildrenReach(g, v, cs, grey + {v});
    ReachableSelf(g, v);
    forall x | x in r.0 + [v] ensures Reachable(g, v, x) {
      if x != v {
        assert x in r.0;
      }
    }
  }

  lemma {:induction false} ChildrenReach<NV, W>(g: Graph<NV, W>, u: nat, cs: seq<nat>, grey: set<nat>)
    requires WellFormed(g) && grey <= Ids(g)
    requires forall k :: 0 <= k < |cs| ==> cs[k] < |g.nodes| && HasEdge(g, u, cs[k])
    ensures var r := Children(g, cs, grey);
      (forall x :: x in r.0 ==> Reachable(g, u, x)) && ChildrenGrey(g, r.0, r.1)
    decreases Ids(g) - grey, 1, |cs|
  {
    if |cs| > 0 {
      if cs[0] in grey {
        ChildrenReach(g, u, cs[1..], grey);
      } else {
        var r1 := Visit(g, cs[0], grey);
        VisitReach(g, cs[0], grey);
        var r2 := Children(g, cs[1..], r1.1);
        ChildrenReach(g, u, cs[1..], r1.1);
        forall x | x in r1.0 ensures Reachable(g, u, x) {
          ReachableFromEdge(g, u, cs[0], x);
        }
      }
    }
  }

  /** `dfs(v)` yields in post-order relative to what was grey when it started. */
  lemma {:induction false} VisitPost<NV, W>(g: Graph<NV, W>, v: nat, grey: set<nat>)
    requires WellFormed(g) && v < |g.nodes| && v !in grey && grey <= Ids(g)
    ensures PostOrder(g, Visit(g, v, grey).0, grey)
    decreases Ids(g) - grey, 0
  {
    var cs := ChildIds(g, v);
    var r := Children(g, cs, grey + {v});
    var out := r.0 + [v];
    ChildrenGreys(g, cs, grey + {v});
    ChildrenReach(g, v, cs, grey + {v});
    ChildrenPost(g, cs, grey + {v});
    ReachableSelf(g, v);
    forall k, c: nat | 0 <= k < |out| && HasEdge(g, out[k], c)
      ensures c in grey || c in out[..k] || Reachable(g, c, out[k])
    {
      if k < |r.0| {
        assert out[k] == r.0[k] && out[..k] == r.0[..k];
        if c == v {
          assert r.0[k] in r.0;
        }
      } else {
        assert out[..k] == r.0;
        assert c in cs;
      }
    }
  }

  lemma {:induction false} ChildrenPost<NV, W>(g: Graph<NV, W>, cs: seq<nat>, grey: set<nat>)
    requires WellFormed(g) && grey <= Ids(g)
    requires forall k :: 0 <= k < |cs| ==> cs[k] < |g.nodes|
    ensures PostOrder(g, Children(g, cs, grey).0, grey)
    decreases Ids(g) - grey, 1, |cs|
  {
    if |cs| > 0 {
      if cs[0] in grey {
        ChildrenPost(g, cs[1..], grey);
        ChildrenSkips(g, cs, grey);
        PostOrderSame(g, Children(g, cs[1..], grey).0, Children(g, cs, grey).0, grey);
      } else {
        var r1 := Visit(g, cs[0], grey);
        VisitPost(g, cs[0], grey);
        VisitGreys(g, cs[0], grey);
        var r2 := Children(g, cs[1..], r1.1);
        ChildrenPost(g, cs[1..], r1.1);
        PostOrderConcat(g, r1.0, r2.0, grey, r1.1);
        ChildrenVisits(g, cs, grey);
        PostOrderSame(g, r1.0 + r2.0, Children(g, cs, grey).0, grey);
      }
    }
  }

  /** Post-order of a later segment, relative to a grey set that includes the earlier one. */
  lemma PostOrderConcat<NV, W>(g: Graph<NV, W>, a: seq<nat>, b: seq<nat>, grey: set<nat>, grey': set<nat>)
    requires PostOrder(g, a, grey) && PostOrder(g, b, grey')
    requires forall x :: x in grey' ==> x in grey || x in a
    ensures PostOrder(g, a + b, grey)
  {
    var out := a + b;
    forall k, c: nat | 0 <= k < |out| && HasEdge(g, out[k], c)
      ensures c in grey || c in out[..k] || Reachable(g, c, out[k])
    {
      if k < |a| {
        assert out[k] == a[k] && out[..k] == a[..k];
      } else {
        var k' := k - |a|;
        assert out[k] == b[k'] && out[..k] == a + b[..k'];
      }
    }
  }

  /** Unordered mode from id `i` on yields, once each, every node still white. */
  lemma {:induction false} AllSpec<NV, W>(g: Graph<NV, W>, i: nat, grey: set<nat>)
    requires WellFormed(g) && i <= |g.nodes| && grey <= Ids(g)
    requires forall j: nat :: j < i ==> j in grey
    ensures YieldsWhite(g, All(g, i, grey), grey)
    decreases |g.nodes| - i, 1
  {
    if i < |g.nodes| {
      if i in grey {
        AllSpecSkip(g, i, grey);
      } else {
        AllSpecStep(g, i, grey);
      }
    }
  }

  /** Each node that is not grey, once, and nothing else. */
  ghost predicate YieldsWhite<NV, W>(g: Graph<NV, W>, r: seq<nat>, grey: set<nat>) {
    && NoDups(r)
    && (forall x: nat :: x in r <==> x < |g.nodes| && x !in grey)
  }

  lemma {:induction false} AllSpecSkip<NV, W>(g: Graph<NV, W>, i: nat, grey: set<nat>)
    requires WellFormed(g) && i < |g.nodes| && i in grey && grey <= Ids(g)
    requires forall j: nat :: j < i ==> j in grey
    ensures YieldsWhite(g, All(g, i, grey), grey)
    decreases |g.nodes| - i, 0
  {
    AllSpec(g, i + 1, grey);
    AllSkips(g, i, grey);
    YieldsWhiteSame(g, All(g, i + 1, grey), All(g, i, grey), grey);
  }

  lemma {:induction false} AllSpecStep<NV, W>(g: Graph<NV, W>, i: nat, grey: set<nat>)
    requires WellFormed(g) && i < |g.nodes| && i !in grey && grey <= Ids(g)
    requires forall j: nat :: j < i ==> j in grey
    ensures YieldsWhite(g, All(g, i, grey), grey)
    decreases |g.nodes| - i, 0
  {
    var r1 := Visit(g, i, grey);
    VisitGreys(g, i, grey);
    var rest := All(g, i + 1, r1.1);
    AllSpec(g, i + 1, r1.1);
    forall a, b | 0 <= a < |r1.0| && 0 <= b < |rest| ensures r1.0[a] != rest[b] {
      assert r1.0[a] in r1.1;
      assert rest[b] in rest;
    }
    NoDupsConcat(r1.0, rest);
    forall x: nat ensures x in r1.0 + rest <==> x < |g.nodes| && x !in grey {
      if x in r1.0 {
        assert x in r1.1;
      }
    }
    AllVisits(g, i, grey);
    YieldsWhiteSame(g, r1.0 + rest, All(g, i, grey), grey);
  }

  /** Yielding the white nodes is a property of the sequence, whatever term denotes it. */
  lemma YieldsWhiteSame<NV, W>(g: Graph<NV, W>, a: seq<nat>, b: seq<nat>, grey: set<nat>)
    requires a == b && YieldsWhite(g, a, grey)
    ensures YieldsWhite(g, b, grey)
  {
  }

  /** Unordered mode from id `i` on yields in post-order. */
  lemma AllPost<NV, W>(g: Graph<NV, W>, i: nat, grey: set<nat>)
    requires WellFormed(g) && i <= |g.nodes| && grey <= Ids(g)
    ensures PostOrder(g, All(g, i, grey), grey)
  {
    var out := All(g, i, grey);
    forall k, c: nat | 0 <= k < |out| && HasEdge(g, out[k], c)
      ensures c in grey || c in out[..k] || Reachable(g, c, out[k])
    {
      AllSettled(g, i, grey, k, c);
    }
  }

  /** A child `c` of the `k`-th node yielded from id `i` on is settled. */
  lemma {:induction false} AllSettled<NV, W>(g: Graph<NV, W>, i: nat, grey: set<nat>, k: nat, c: nat)
    requires WellFormed(g) && i <= |g.nodes| && grey <= Ids(g)
    requires k < |All(g, i, grey)| && HasEdge(g, All(g, i, grey)[k], c)
    ensures c in grey || c in All(g, i, grey)[..k] || Reachable(g, c, All(g, i, grey)[k])
    decreases |g.nodes| - i, 2
  {
    if i < |g.nodes| {
      if i in grey {
        AllSkips(g, i, grey);
        AllSettled(g, i + 1, grey, k, c);
      } else {
        AllSettledStep(g, i, grey, k, c);
      }
    }
  }

  lemma {:induction false} AllSettledStep<NV, W>(g: Graph<NV, W>, i: nat, grey: set<nat>, k: nat, c: nat)
    requires WellFormed(g) && i < |g.nodes| && i !in grey && grey <= Ids(g)
    requires k < |All(g, i, grey)| && HasEdge(g, All(g, i, grey)[k], c)
    ensures c in grey || c in All(g, i, grey)[..k] || Reachable(g, c, All(g, i, grey)[k])
    decreases |g.nodes| - i, 1
  {
    AllVisits(g, i, grey);
    if k < |Visit(g, i, grey).0| {
      SettledFront(g, i, grey, All(g, i + 1, Visit(g, i, grey).1), k, c);
    } else {
      SettledBack(g, i, grey, k, c);
    }
  }

  /** A child of a node yielded by the visit of `i` is settled by the visit's post-order. */
  lemma SettledFront<NV, W>(g: Graph<NV, W>, i: nat, grey: set<nat>, rest: seq<nat>, k: nat, c: nat)
    requires WellFormed(g) && i < |g.nodes| && i !in grey && grey <= Ids(g)
    requires k < |Visit(g, i, grey).0| && HasEdge(g, (Visit(g, i, grey).0 + rest)[k], c)
    ensures var out := Visit(g, i, grey).0 + rest;
      c in grey || c in out[..k] || Reachable(g, c, out[k])
  {
    var o := Visit(g, i, grey).0;
    var out := o + rest;
    assert out[k] == o[k] && out[..k] == o[..k];
    assert ChildrenSettled(g, o[k], o[..k], grey) by {
      VisitPost(g, i, grey);
    }
  }

  /** A child of a node yielded after the visit of `i` is settled by the rest, or greyed by the visit. */
  lemma {:induction false} SettledBack<NV, W>(g: Graph<NV, W>, i: nat, grey: set<nat>, k: nat, c: nat)
    requires WellFormed(g) && i < |g.nodes| && i !in grey && grey <= Ids(g)
    requires var r1 := Visit(g, i, grey); var out := r1.0 + All(g, i + 1, r1.1);
      |r1.0| <= k < |out| && HasEdge(g, out[k], c)
    ensures var r1 := Visit(g, i, grey); var out := r1.0 + All(g, i + 1, r1.1);
      c in grey || c in out[..k] || Reachable(g, c, out[k])
    decreases |g.nodes| - i, 0
  {
    var r1 := Visit(g, i, grey);
    var rest := All(g, i + 1, r1.1);
    var out := r1.0 + rest;
    var k' := k - |r1.0|;
    assert out[k] == rest[k'] && out[..k] == r1.0 + rest[..k'];
    AllSettled(g, i + 1, r1.1, k', c);
    if c in r1.1 {
      assert c in grey || c in r1.0 by {
        VisitGreys(g, i, grey);
      }
    }
  }

  /** A grey id is skipped: unordered mode yields what it yields from the next id. */
  lemma AllSkips<NV, W>(g: Graph<NV, W>, i: nat, grey: set<nat>)
    requires WellFormed(g) && i < |g.nodes| && i in grey && grey <= Ids(g)
    ensures All(g, i, grey) == All(g, i + 1, grey)
  {
  }

  /** Post-order is a property of the sequence, whatever term denotes it. */
  lemma PostOrderSame<NV, W>(g: Graph<NV, W>, a: seq<nat>, b: seq<nat>, grey: set<nat>)
    requires a == b && PostOrder(g, a, grey)
    ensures PostOrder(g, b, grey)
  {
  }

  /** A white id is visited, then unordered mode goes on from the next id. */
  lemma AllVisits<NV, W>(g: Graph<NV, W>, i: nat, grey: set<nat>)
    requires WellFormed(g) && i < |g.nodes| && i !in grey && grey <= Ids(g)
    ensures Visit(g, i, grey).1 <= Ids(g)
    ensures All(g, i, grey) == Visit(g, i, grey).0 + All(g, i + 1, Visit(g, i, grey).1)
  {
  }

  /**
   * The traversal's promise. Unordered: every node exactly once. Ordered
   * from a known start: exactly the nodes reachable from it, each once,
   * ending with the start. Both in post-order.
   */
  lemma TraverseSpec<NV, W>(g: Graph<NV, W>, options: Options)
    requires WellFormed(g)
    ensures var r := Traverse(g, options);
      r.Success? ==> NoDups(r.value) && PostOrder(g, r.value, {})
    ensures var r := Traverse(g, options);
      options.mode != Some(Ordered) ==> forall x: nat :: x in r.value <==> x < |g.nodes|
    ensures var r := Traverse(g, options);
      options.mode == Some(Ordered) && r.Success? ==>
        var s := OrderedStart(g, options.startNodeId).value as nat;
        && |r.value| > 0 && r.value[|r.value| - 1] == s
        && forall x: nat :: x in r.value <==> Reachable(g, s, x)
  {
    if options.mode != Some(Ordered) {
      UnorderedSpec(g);
    } else if OrderedStart(g, options.startNodeId).Some? {
      var s := OrderedStart(g, options.startNodeId).value;
      if 0 <= s < |g.nodes| {
        OrderedSpec(g, s);
      }
    }
  }

  /** Unordered mode from the first id with nothing grey: every node once, in post-order. */
  lemma UnorderedSpec<NV, W>(g: Graph<NV, W>)
    requires WellFormed(g)
    ensures var r := All(g, 0, {});
      NoDups(r) && PostOrder(g, r, {}) && forall x: nat :: x in r <==> x < |g.nodes|
  {
    AllSpec(g, 0, {});
    AllPost(g, 0, {});
  }

  /** A visit from `s` with nothing grey: exactly the nodes reachable from `s`, once each, in post-order, ending with `s`. */
  lemma OrderedSpec<NV, W>(g: Graph<NV, W>, s: nat)
    requires WellFormed(g) && s < |g.nodes|
    ensures var r := Visit(g, s, {}).0;
      && NoDups(r) && PostOrder(g, r, {})
      && |r| > 0 && r[|r| - 1] == s
      && forall x: nat :: x in r <==> Reachable(g, s, x)
  {
    var r := Visit(g, s, {});
    VisitGreys(g, s, {});
    VisitReach(g, s, {});
    VisitPost(g, s, {});
    forall x: nat | Reachable(g, s, x) ensures x in r.0 {
      assert Closed(g, r.1);
      ClosedHoldsReachable(g, r.1, s, x);
    }
  }

  // ---- the order among siblings ----

  /** The nodes of `s`, as a set. */
  function Elems(s: seq<nat>): (e: set<nat>)
    ensures forall x :: x in e <==> x in s
  {
    set x | x in s
  }

  /** The first of `cs` not in `avoid`, if any. */
  function FirstFree(cs: seq<nat>, avoid: set<nat>): (r: Option<nat>)
    ensures r.None? <==> forall k :: 0 <= k < |cs| ==> cs[k] in avoid
    ensures r.Some? ==> r.value in cs && r.value !in avoid
  {
    if |cs| == 0 then None
    else if cs[0] !in avoid then Some(cs[0])
    else FirstFree(cs[1..], avoid)
  }

  /** A free entry after a prefix that is all avoided is the one found. */
  lemma {:induction false} FirstFreeAt(cs: seq<nat>, avoid: set<nat>, j: nat)
    requires j < |cs| && cs[j] !in avoid
    requires forall i :: 0 <= i < j ==> cs[i] in avoid
    ensures FirstFree(cs, avoid) == Some(cs[j])
  {
    if j > 0 {
      assert cs[0] in avoid;
      forall i | 0 <= i < j - 1 ensures cs[1..][i] in avoid {
        assert cs[1..][i] == cs[i + 1];
      }
      FirstFreeAt(cs[1..], avoid, j - 1);
    }
  }

  /**
   * The node a depth-first walk finishes next, once `done` are finished:
   * from `u`, go down to the first child in child order (ascending id, the
   * order `getNodeChildrenById` lists them) that is neither finished nor on
   * the current path `path`, and on, until a node has no such child.
   */
  function Descend<NV, W>(g: Graph<NV, W>, u: nat, path: set<nat>, done: set<nat>): (r: nat)
    requires WellFormed(g) && u < |g.nodes| && u in path && path <= Ids(g)
    ensures r < |g.nodes|
    ensures u !in done ==> r !in done
    decreases Ids(g) - path
  {
    match FirstFree(ChildIds(g, u), path + done)
    case None => u
    case Some(c) => Descend(g, c, path + {c}, done)
  }

  /**
   * Ordered mode from `s`, as a reference: each node yielded is the one
   * the walk down from `s` reaches when the nodes yielded before it are
   * finished, and the output stops once `s` is finished.
   */
  ghost predicate IsOrderedDfs<NV, W>(g: Graph<NV, W>, s: nat, r: seq<nat>)
    requires WellFormed(g) && s < |g.nodes|
  {
    && |r| > 0 && r[|r| - 1] == s
    && (forall k :: 0 <= k < |r| - 1 ==> r[k] != s)
    && forall k :: 0 <= k < |r| ==> r[k] == NextOrdered(g, s, Elems(r[..k]))
  }

  /** Ordered mode's next node once `done` are finished: the walk down from the start `s`. */
  function NextOrdered<NV, W>(g: Graph<NV, W>, s: nat, done: set<nat>): (r: nat)
    requires WellFormed(g) && s < |g.nodes|
  {
    Descend(g, s, {s}, done)
  }

  /** The least id at or after `i` that is not in `done`; `n` when there is none below `n`. */
  function LeastOpen(n: nat, i: nat, done: set<nat>): (m: nat)
    requires i <= n
    ensures i <= m <= n
    ensures forall j :: i <= j < m ==> j in done
    ensures m < n ==> m !in done
    decreases n - i
  {
    if i == n then n else if i !in done then i else LeastOpen(n, i + 1, done)
  }

  /**
   * Unordered mode's next node once `done` are finished: the walk down
   * from the least id not finished yet (its root), or `|g.nodes|`, which
   * is no node, when every id is finished.
   */
  function NextUnordered<NV, W>(g: Graph<NV, W>, done: set<nat>): (r: nat)
    requires WellFormed(g)
  {
    var m := LeastOpen(|g.nodes|, 0, done);
    if m < |g.nodes| then Descend(g, m, {m}, done) else m
  }

  /** Unordered mode, as a reference: every node, each the next one of `NextUnordered`. */
  ghost predicate IsUnorderedDfs<NV, W>(g: Graph<NV, W>, r: seq<nat>)
    requires WellFormed(g)
  {
    && (forall x: nat :: x in r <==> x < |g.nodes|)
    && forall k :: 0 <= k < |r| ==> r[k] == NextUnordered(g, Elems(r[..k]))
  }

  /** Every node of `r` is the walk's next one from `root`, counting `done` as finished too. */
  ghost predicate DescendsFrom<NV, W>(g: Graph<NV, W>, root: nat, done: set<nat>, r: seq<nat>)
    requires WellFormed(g) && root < |g.nodes|
  {
    forall k :: 0 <= k < |r| ==> r[k] == Descend(g, root, {root}, done + Elems(r[..k]))
  }

  /**
   * The walk from `root` leads down the current path to `v`: while the
   * finished nodes include `done` and miss the path, it reaches what the
   * walk from `v` reaches.
   */
  ghost predicate Leads<NV, W>(g: Graph<NV, W>, root: nat, v: nat, path: set<nat>, done: set<nat>)
    requires WellFormed(g) && root < |g.nodes| && v < |g.nodes| && v in path && path <= Ids(g)
  {
    forall d: set<nat> :: done <= d && d !! path ==> Descend(g, root, {root}, d) == Descend(g, v, path, d)
  }

  /** Entering the first free child `c` of `v` extends the path the walk follows. */
  lemma ChildLeads<NV, W>(g: Graph<NV, W>, root: nat, v: nat, path: set<nat>, done: set<nat>, j: nat)
    requires WellFormed(g) && root < |g.nodes| && v < |g.nodes| && v in path && path <= Ids(g)
    requires Leads(g, root, v, path, done)
    requires j < |ChildIds(g, v)| && ChildIds(g, v)[j] !in path + done
    requires forall i :: 0 <= i < j ==> ChildIds(g, v)[i] in path + done
    ensures Leads(g, root, ChildIds(g, v)[j], path + {ChildIds(g, v)[j]}, done)
  {
    var c := ChildIds(g, v)[j];
    forall d: set<nat> | done <= d && d !! (path + {c})
      ensures Descend(g, root, {root}, d) == Descend(g, c, path + {c}, d)
    {
      FirstFreeAt(ChildIds(g, v), path + d, j);
    }
  }

  /** The prefix sets of a concatenation, in terms of its parts. */
  lemma PrefixElems(done: set<nat>, a: seq<nat>, b: seq<nat>, k: nat)
    requires k <= |a + b|
    ensures k <= |a| ==> done + Elems((a + b)[..k]) == done + Elems(a[..k])
    ensures k >= |a| ==> done + Elems((a + b)[..k]) == (done + Elems(a)) + Elems(b[..k - |a|])
  {
    if k <= |a| {
      assert (a + b)[..k] == a[..k];
    } else {
      assert (a + b)[..k] == a + b[..k - |a|];
    }
  }

  /** Two runs in a row, the second counting the first's nodes as finished, follow the walk together. */
  lemma DescendsConcat<NV, W>(g: Graph<NV, W>, root: nat, done: set<nat>, a: seq<nat>, b: seq<nat>)
    requires WellFormed(g) && root < |g.nodes|
    requires DescendsFrom(g, root, done, a) && DescendsFrom(g, root, done + Elems(a), b)
    ensures DescendsFrom(g, root, done, a + b)
  {
    forall k | 0 <= k < |a + b|
      ensures (a + b)[k] == Descend(g, root, {root}, done + Elems((a + b)[..k]))
    {
      PrefixElems(done, a, b, k);
      if k >= |a| {
        assert (a + b)[k] == b[k - |a|];
      }
    }
  }

  /** `Leads`, at one set of finished nodes. */
  lemma LeadsAt<NV, W>(g: Graph<NV, W>, root: nat, v: nat, path: set<nat>, done: set<nat>, d: set<nat>)
    requires WellFormed(g) && root < |g.nodes| && v < |g.nodes| && v in path && path <= Ids(g)
    requires Leads(g, root, v, path, done) && done <= d && d !! path
    ensures Descend(g, root, {root}, d) == Descend(g, v, path, d)
  {
  }

  /** A node whose children are all finished or on the path is the one finished next. */
  lemma DescendStops<NV, W>(g: Graph<NV, W>, v: nat, path: set<nat>, d: set<nat>)
    requires WellFormed(g) && v < |g.nodes| && v in path && path <= Ids(g)
    requires forall k :: 0 <= k < |ChildIds(g, v)| ==> ChildIds(g, v)[k] in path + d
    ensures Descend(g, v, path, d) == v
  {
  }

  /** One node that is the walk's next one. */
  lemma DescendsOne<NV, W>(g: Graph<NV, W>, root: nat, done: set<nat>, v: nat)
    requires WellFormed(g) && root < |g.nodes|
    requires Descend(g, root, {root}, done) == v
    ensures DescendsFrom(g, root, done, [v])
  {
    assert [v][..0] == [];
    assert done + Elems([]) == done;
  }

  /**
   * `dfs(v)` entered from the path `path` follows the walk: each node it
   * yields is the walk's next one, counting what it yielded before as
   * finished.
   */
  lemma {:induction false} VisitDescends<NV, W>(g: Graph<NV, W>, root: nat, v: nat, grey: set<nat>, path: set<nat>, done: set<nat>)
    requires WellFormed(g) && root < |g.nodes| && v < |g.nodes| && v !in grey && grey <= Ids(g)
    requires v in path && path <= Ids(g) && grey == done + (path - {v}) && done !! path
    requires Leads(g, root, v, path, done)
    ensures DescendsFrom(g, root, done, Visit(g, v, grey).0)
    decreases Ids(g) - grey, 0
  {
    var cs := ChildIds(g, v);
    var rc := Children(g, cs, grey + {v});
    assert cs[0..] == cs;
    ChildrenDescends(g, root, v, 0, grey + {v}, path, done);
    VisitFinishes(g, root, v, grey, path, done);
    DescendsConcat(g, root, done, rc.0, [v]);
  }

  /** After its children, `dfs(v)` yields `v`, the walk's next node. */
  lemma VisitFinishes<NV, W>(g: Graph<NV, W>, root: nat, v: nat, grey: set<nat>, path: set<nat>, done: set<nat>)
    requires WellFormed(g) && root < |g.nodes| && v < |g.nodes| && v !in grey && grey <= Ids(g)
    requires v in path && path <= Ids(g) && grey == done + (path - {v}) && done !! path
    requires Leads(g, root, v, path, done)
    ensures var rc := Children(g, ChildIds(g, v), grey + {v});
      DescendsFrom(g, root, done + Elems(rc.0), [v])
  {
    var cs := ChildIds(g, v);
    var rc := Children(g, cs, grey + {v});
    ChildrenGreys(g, cs, grey + {v});
    var d := done + Elems(rc.0);
    assert d !! path by {
      assert forall x :: x in rc.0 ==> x !in grey + {v};
    }
    assert forall k :: 0 <= k < |cs| ==> cs[k] in path + d by {
      assert forall k :: 0 <= k < |cs| ==> cs[k] in rc.1;
    }
    DescendStops(g, v, path, d);
    LeadsAt(g, root, v, path, done, d);
    DescendsOne(g, root, d, v);
  }

  /** The children loop of `dfs(v)`, from child `j` on, follows the walk. */
  lemma {:induction false} ChildrenDescends<NV, W>(g: Graph<NV, W>, root: nat, v: nat, j: nat, grey: set<nat>, path: set<nat>, done: set<nat>)
    requires WellFormed(g) && root < |g.nodes| && v < |g.nodes| && grey <= Ids(g)
    requires v in path && path <= Ids(g) && grey == done + path && done !! path
    requires j <= |ChildIds(g, v)| && forall i :: 0 <= i < j ==> ChildIds(g, v)[i] in grey
    requires Leads(g, root, v, path, done)
    ensures DescendsFrom(g, root, done, Children(g, ChildIds(g, v)[j..], grey).0)
    decreases Ids(g) - grey, 1, |ChildIds(g, v)| - j, 2
  {
    if j < |ChildIds(g, v)| {
      if ChildIds(g, v)[j] in grey {
        var cs := ChildIds(g, v)[j..];
        assert cs[1..] == ChildIds(g, v)[j + 1..];
        ChildrenSkips(g, cs, grey);
        ChildrenDescends(g, root, v, j + 1, grey, path, done);
      } else {
        ChildrenDescendsStep(g, root, v, j, grey, path, done);
      }
    }
  }

  lemma {:induction false} ChildrenDescendsStep<NV, W>(g: Graph<NV, W>, root: nat, v: nat, j: nat, grey: set<nat>, path: set<nat>, done: set<nat>)
    requires WellFormed(g) && root < |g.nodes| && v < |g.nodes| && grey <= Ids(g)
    requires v in path && path <= Ids(g) && grey == done + path && done !! path
    requires j < |ChildIds(g, v)| && ChildIds(g, v)[j] !in grey
    requires forall i :: 0 <= i < j ==> ChildIds(g, v)[i] in grey
    requires Leads(g, root, v, path, done)
    ensures DescendsFrom(g, root, done, Children(g, ChildIds(g, v)[j..], grey).0)
    decreases Ids(g) - grey, 1, |ChildIds(g, v)| - j, 1
  {
    var cs := ChildIds(g, v)[j..];
    var c := ChildIds(g, v)[j];
    assert cs[0] == c && cs[1..] == ChildIds(g, v)[j + 1..];
    EnterChild(g, root, v, j, grey, path, done);
    var r1 := Visit(g, c, grey);
    var done1 := done + Elems(r1.0);
    ChildrenDescends(g, root, v, j + 1, r1.1, path, done1);
    ChildrenVisits(g, cs, grey);
    DescendsConcat(g, root, done, r1.0, Children(g, cs[1..], r1.1).0);
  }

  /**
   * Entering the white child `j` of `v`: its visit follows the walk, and
   * afterwards the loop goes on from a grey set that is the finished nodes
   * (now including the visit's) and the path, with child `j` grey.
   */
  lemma EnterChild<NV, W>(g: Graph<NV, W>, root: nat, v: nat, j: nat, grey: set<nat>, path: set<nat>, done: set<nat>)
    requires WellFormed(g) && root < |g.nodes| && v < |g.nodes| && grey <= Ids(g)
    requires v in path && path <= Ids(g) && grey == done + path && done !! path
    requires j < |ChildIds(g, v)| && ChildIds(g, v)[j] !in grey
    requires forall i :: 0 <= i < j ==> ChildIds(g, v)[i] in grey
    requires Leads(g, root, v, path, done)
    ensures var r1 := Visit(g, ChildIds(g, v)[j], grey); var done1 := done + Elems(r1.0);
      && DescendsFrom(g, root, done, r1.0)
      && r1.1 == done1 + path && done1 !! path && r1.1 <= Ids(g)
      && (forall i :: 0 <= i < j + 1 ==> ChildIds(g, v)[i] in r1.1)
      && Leads(g, root, v, path, done1)
    decreases Ids(g) - grey, 1, |ChildIds(g, v)| - j, 0
  {
    var c := ChildIds(g, v)[j];
    ChildLeads(g, root, v, path, done, j);
    assert grey == done + ((path + {c}) - {c});
    VisitDescends(g, root, c, grey, path + {c}, done);
    VisitLeaves(g, c, grey, path, done);
    LeadsMore(g, root, v, path, done, done + Elems(Visit(g, c, grey).0));
  }

  /** A visit leaves grey what was finished, what it yielded (now finished too), and the path. */
  lemma VisitLeaves<NV, W>(g: Graph<NV, W>, c: nat, grey: set<nat>, path: set<nat>, done: set<nat>)
    requires WellFormed(g) && c < |g.nodes| && c !in grey && grey <= Ids(g)
    requires grey == done + path && done !! path
    ensures var r1 := Visit(g, c, grey); var done1 := done + Elems(r1.0);
      r1.1 == done1 + path && done1 !! path && grey + {c} <= r1.1
  {
    var r1 := Visit(g, c, grey);
    VisitGreys(g, c, grey);
    var done1 := done + Elems(r1.0);
    assert forall x :: x in r1.0 ==> x !in grey;
    assert forall x :: x in r1.1 <==> x in done1 + path;
  }

  /** The walk still leads down the path when more nodes are finished. */
  lemma LeadsMore<NV, W>(g: Graph<NV, W>, root: nat, v: nat, path: set<nat>, done: set<nat>, done': set<nat>)
    requires WellFormed(g) && root < |g.nodes| && v < |g.nodes| && v in path && path <= Ids(g)
    requires Leads(g, root, v, path, done) && done <= done'
    ensures Leads(g, root, v, path, done')
  {
  }

  /** Following the walk from `s` with nothing finished before is following ordered mode. */
  lemma DescendsFromNothing<NV, W>(g: Graph<NV, W>, s: nat, r: seq<nat>)
    requires WellFormed(g) && s < |g.nodes| && DescendsFrom(g, s, {}, r)
    ensures forall k :: 0 <= k < |r| ==> r[k] == NextOrdered(g, s, Elems(r[..k]))
  {
    forall k | 0 <= k < |r| ensures r[k] == NextOrdered(g, s, Elems(r[..k])) {
      assert {} + Elems(r[..k]) == Elems(r[..k]);
    }
  }

  /** Ordered mode's output from `s` is the reference order. */
  lemma VisitIsOrderedDfs<NV, W>(g: Graph<NV, W>, s: nat)
    requires WellFormed(g) && s < |g.nodes|
    ensures IsOrderedDfs(g, s, Visit(g, s, {}).0)
  {
    var r := Visit(g, s, {}).0;
    VisitDescends(g, s, s, {}, {s}, {});
    VisitGreys(g, s, {});
    DescendsFromNothing(g, s, r);
  }

  /** Every node of `r` is unordered mode's next one, counting `done` as finished too. */
  ghost predicate FollowsUnordered<NV, W>(g: Graph<NV, W>, done: set<nat>, r: seq<nat>)
    requires WellFormed(g)
  {
    forall k :: 0 <= k < |r| ==> r[k] == NextUnordered(g, done + Elems(r[..k]))
  }

  /** Two runs in a row, the second counting the first's nodes as finished, follow unordered mode together. */
  lemma FollowsConcat<NV, W>(g: Graph<NV, W>, done: set<nat>, a: seq<nat>, b: seq<nat>)
    requires WellFormed(g)
    requires FollowsUnordered(g, done, a) && FollowsUnordered(g, done + Elems(a), b)
    ensures FollowsUnordered(g, done, a + b)
  {
    forall k | 0 <= k < |a + b|
      ensures (a + b)[k] == NextUnordered(g, done + Elems((a + b)[..k]))
    {
      PrefixElems(done, a, b, k);
      if k >= |a| {
        assert (a + b)[k] == b[k - |a|];
      }
    }
  }

  /** Unordered mode from id `i`, with every lower id finished, follows `NextUnordered`. */
  lemma {:induction false} AllDescends<NV, W>(g: Graph<NV, W>, i: nat, grey: set<nat>)
    requires WellFormed(g) && i <= |g.nodes| && grey <= Ids(g)
    requires forall j: nat :: j < i ==> j in grey
    ensures FollowsUnordered(g, grey, All(g, i, grey))
    decreases |g.nodes| - i, 1
  {
    if i < |g.nodes| {
      if i in grey {
        AllSkips(g, i, grey);
        AllDescends(g, i + 1, grey);
      } else {
        RootDescends(g, i, grey);
        AllDescends(g, i + 1, Visit(g, i, grey).1);
        AllJoin(g, i, grey);
      }
    }
  }

  /** The root's visit followed by the rest of the outer loop follows unordered mode. */
  lemma AllJoin<NV, W>(g: Graph<NV, W>, i: nat, grey: set<nat>)
    requires WellFormed(g) && i < |g.nodes| && i !in grey && grey <= Ids(g)
    requires var r1 := Visit(g, i, grey);
      && FollowsUnordered(g, grey, r1.0) && r1.1 == grey + Elems(r1.0)
      && FollowsUnordered(g, r1.1, All(g, i + 1, r1.1))
    ensures FollowsUnordered(g, grey, All(g, i, grey))
  {
    var r1 := Visit(g, i, grey);
    AllVisits(g, i, grey);
    FollowsConcat(g, grey, r1.0, All(g, i + 1, r1.1));
  }

  /**
   * The visit of the white root `i`, every lower id finished, follows
   * unordered mode: `i` stays the least id not finished until it is
   * yielded, last.
   */
  lemma RootDescends<NV, W>(g: Graph<NV, W>, i: nat, grey: set<nat>)
    requires WellFormed(g) && i < |g.nodes| && i !in grey && grey <= Ids(g)
    requires forall j: nat :: j < i ==> j in grey
    ensures var r1 := Visit(g, i, grey);
      && FollowsUnordered(g, grey, r1.0)
      && r1.1 == grey + Elems(r1.0)
      && (forall j: nat :: j < i + 1 ==> j in r1.1)
  {
    var r1 := Visit(g, i, grey);
    assert grey == grey + ({i} - {i});
    VisitDescends(g, i, i, grey, {i}, grey);
    VisitGreys(g, i, grey);
    var r := r1.0;
    assert DescendsFrom(g, i, grey, r) && |r| > 0 && r[|r| - 1] == i && NoDups(r);
    forall k | 0 <= k < |r| ensures r[k] == NextUnordered(g, grey + Elems(r[..k])) {
      RootStep(g, i, grey, r, k);
    }
    assert forall x :: x in r1.1 <==> x in grey + Elems(r);
  }

  /** Before the root `i` is yielded, it is still the least id not finished. */
  lemma RootStep<NV, W>(g: Graph<NV, W>, i: nat, grey: set<nat>, r: seq<nat>, k: nat)
    requires WellFormed(g) && i < |g.nodes| && i !in grey
    requires forall j: nat :: j < i ==> j in grey
    requires k < |r| && r[|r| - 1] == i && NoDups(r)
    requires DescendsFrom(g, i, grey, r)
    ensures r[k] == NextUnordered(g, grey + Elems(r[..k]))
  {
    var d := grey + Elems(r[..k]);
    assert i !in d by {
      forall j | 0 <= j < k ensures r[..k][j] != i {
        assert r[..k][j] == r[j];
      }
    }
    LeastOpenIs(|g.nodes|, 0, i, d);
  }

  /** With every id below `i` in `done` and `i` not, the least open id is `i`. */
  lemma {:induction false} LeastOpenIs(n: nat, m: nat, i: nat, done: set<nat>)
    requires m <= i < n && i !in done
    requires forall j: nat :: j < i ==> j in done
    ensures LeastOpen(n, m, done) == i
    decreases i - m
  {
    if m < i {
      LeastOpenIs(n, m + 1, i, done);
    }
  }

  /** Unordered mode's output is the reference order. */
  lemma AllIsUnorderedDfs<NV, W>(g: Graph<NV, W>)
    requires WellFormed(g)
    ensures IsUnorderedDfs(g, All(g, 0, {}))
  {
    var r := All(g, 0, {});
    AllDescends(g, 0, {});
    UnorderedSpec(g);
    assert FollowsUnordered(g, {}, r);
    forall k | 0 <= k < |r| ensures r[k] == NextUnordered(g, Elems(r[..k])) {
      assert {} + Elems(r[..k]) == Elems(r[..k]);
    }
  }

  /** Two sequences whose next element is fixed by their prefix agree wherever both are defined. */
  lemma {:induction false} SamePrefix(a: seq<nat>, b: seq<nat>, k: nat)
    requires k <= |a| && k <= |b|
    requires forall j :: 0 <= j < k && a[..j] == b[..j] ==> a[j] == b[j]
    ensures a[..k] == b[..k]
  {
    if k > 0 {
      SamePrefix(a, b, k - 1);
      assert a[..k] == a[..k - 1] + [a[k - 1]] && b[..k] == b[..k - 1] + [b[k - 1]];
    }
  }

  /** In an ordered reference order the start occurs only last. */
  lemma OrderedStartIsLast<NV, W>(g: Graph<NV, W>, s: nat, r: seq<nat>, k: nat)
    requires WellFormed(g) && s < |g.nodes| && IsOrderedDfs(g, s, r)
    requires k < |r| && r[k] == s
    ensures k == |r| - 1
  {
  }

  /** Two ordered reference orders agree position by position. */
  lemma OrderedSteps<NV, W>(g: Graph<NV, W>, s: nat, a: seq<nat>, b: seq<nat>, n: nat)
    requires WellFormed(g) && s < |g.nodes| && IsOrderedDfs(g, s, a) && IsOrderedDfs(g, s, b)
    requires n <= |a| && n <= |b|
    ensures forall j :: 0 <= j < n && a[..j] == b[..j] ==> a[j] == b[j]
  {
    forall j | 0 <= j < n && a[..j] == b[..j] ensures a[j] == b[j] {
      assert a[j] == NextOrdered(g, s, Elems(a[..j]));
      assert b[j] == NextOrdered(g, s, Elems(b[..j]));
    }
  }

  /** The ordered reference order from `s` is unique. */
  lemma OrderedDfsUnique<NV, W>(g: Graph<NV, W>, s: nat, a: seq<nat>, b: seq<nat>)
    requires WellFormed(g) && s < |g.nodes| && IsOrderedDfs(g, s, a) && IsOrderedDfs(g, s, b)
    ensures a == b
  {
    var n := if |a| < |b| then |a| else |b|;
    OrderedSteps(g, s, a, b, n);
    SamePrefix(a, b, n);
    assert a[n - 1] == a[..n][n - 1] == b[..n][n - 1] == b[n - 1];
    assert a[n - 1] == s;
    OrderedStartIsLast(g, s, a, n - 1);
    OrderedStartIsLast(g, s, b, n - 1);
    assert a == a[..n] && b == b[..n];
  }

  /** Once every node is finished, unordered mode's next is no node. */
  lemma NextAfterAll<NV, W>(g: Graph<NV, W>, a: seq<nat>)
    requires WellFormed(g) && forall x: nat :: x < |g.nodes| ==> x in a
    ensures NextUnordered(g, Elems(a)) == |g.nodes|
  {
    var m := LeastOpen(|g.nodes|, 0, Elems(a));
    assert m < |g.nodes| ==> m in a;
  }

  /** A sequence that follows unordered mode is not extended by another that does. */
  lemma UnorderedNoLonger<NV, W>(g: Graph<NV, W>, a: seq<nat>, b: seq<nat>)
    requires WellFormed(g) && IsUnorderedDfs(g, a) && IsUnorderedDfs(g, b)
    requires |a| <= |b| && b[..|a|] == a
    ensures |b| == |a|
  {
    if |a| < |b| {
      assert b[|a|] in b;
      assert Elems(b[..|a|]) == Elems(a);
      NextAfterAll(g, a);
      assert false;
    }
  }

  /** The unordered reference order is unique. */
  lemma UnorderedDfsUnique<NV, W>(g: Graph<NV, W>, a: seq<nat>, b: seq<nat>)
    requires WellFormed(g) && IsUnorderedDfs(g, a) && IsUnorderedDfs(g, b)
    ensures a == b
  {
    var n := if |a| < |b| then |a| else |b|;
    SamePrefix(a, b, n);
    if |a| <= |b| {
      assert a[..|a|] == a;
      UnorderedNoLonger(g, a, b);
    } else {
      assert b[..|b|] == b;
      UnorderedNoLonger(g, b, a);
    }
  }

  /**
   * The reference orders determine the traversal: unordered mode yields
   * `r` exactly when `r` is the unordered reference order, and ordered
   * mode from a known start exactly when `r` is the ordered one from it.
   */
  lemma TraverseIsTheDfsOrder<NV, W>(g: Graph<NV, W>, options: Options, r: seq<nat>)
    requires WellFormed(g)
    ensures options.mode != Some(Ordered) ==> (Traverse(g, options) == Success(r) <==> IsUnorderedDfs(g, r))
    ensures options.mode == Some(Ordered) && OrderedStart(g, options.startNodeId).Some? ==>
      var s := OrderedStart(g, options.startNodeId).value;
      0 <= s < |g.nodes| ==> (Traverse(g, options) == Success(r) <==> IsOrderedDfs(g, s as nat, r))
  {
    if options.mode != Some(Ordered) {
      AllIsUnorderedDfs(g);
      if IsUnorderedDfs(g, r) {
        UnorderedDfsUnique(g, r, All(g, 0, {}));
      }
    } else if OrderedStart(g, options.startNodeId).Some? {
      var s := OrderedStart(g, options.startNodeId).value;
      if 0 <= s < |g.nodes| {
        VisitIsOrderedDfs(g, s as nat);
        assert Traverse(g, options) == Success(Visit(g, s as nat, {}).0);
        if IsOrderedDfs(g, s as nat, r) {
          OrderedDfsUnique(g, s as nat, r, Visit(g, s as nat, {}).0);
        }
      }
    }
  }
}
