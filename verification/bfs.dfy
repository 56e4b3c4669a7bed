/**
 * `traverseGraphBfs`: breadth-first traversal with white/grey marking. A
 * node is greyed when it is planned, so it is planned (and yielded) once.
 * The generator is modelled by the finite sequence of node ids it yields.
 */
module Bfs {
  import opened Wrappers
  import opened Common
  import opened Seqs
  import opened Graph
  import opened Reach

  /**
   * The start id: the given one, else the id of node 0 if there is one,
   * else -1 (`startNodeId ?? graph.getNodeById(0)?.id ?? -1`).
   */
  function BfsStart<NV, W>(g: Graph<NV, W>, start: Option<int>): (s: int)
    requires WellFormed(g)
    ensures start.None? && |g.nodes| > 0 ==> s == 0
    ensures start.None? && |g.nodes| == 0 ==> s == -1
    ensures start.Some? ==> s == start.value
  {
    match start
    case Some(s) => s
    case None => match GetNodeById(g, 0) case Some(n) => n.id case None => -1
  }

  /**
   * The inner loop over the children of the node just taken from the queue:
   * a grey child is skipped, a white one is greyed and appended to the queue.
   */
  function Plan(cs: seq<nat>, queue: seq<nat>, grey: set<nat>): (r: (seq<nat>, set<nat>))
    ensures r.1 == grey + set c | c in cs
    ensures |r.0| >= |queue| && r.0[..|queue|] == queue
    ensures forall x :: x in r.0[|queue|..] <==> x in cs && x !in grey
    ensures NoDups(r.0[|queue|..])
    ensures r.1 == grey ==> r.0 == queue
  {
    if |cs| == 0 then (queue, grey)
    else if cs[0] in grey then
      var r := Plan(cs[1..], queue, grey);
      assert (set c | c in cs) == {cs[0]} + set c | c in cs[1..];
      r
    else
      var r := Plan(cs[1..], queue + [cs[0]], grey + {cs[0]});
      assert (set c | c in cs) == {cs[0]} + set c | c in cs[1..];
      assert r.0[..|queue|] == (queue + [cs[0]])[..|queue|];
      assert r.0[|queue|..] == [cs[0]] + r.0[|queue| + 1..];
      r
  }

  /** Strictly ascending, as `ChildIds` lists children. */
  ghost predicate Ascending(s: seq<nat>) {
    forall i, j :: 0 <= i < j < |s| ==> s[i] < s[j]
  }

  /** What planning appends keeps the children's ascending order. */
  lemma {:induction false} PlanAscending(cs: seq<nat>, queue: seq<nat>, grey: set<nat>)
    requires Ascending(cs)
    ensures Ascending(Plan(cs, queue, grey).0[|queue|..])
  {
    if |cs| > 0 {
      TailAscending(cs);
      if cs[0] in grey {
        PlanAscending(cs[1..], queue, grey);
      } else {
        PlanAscending(cs[1..], queue + [cs[0]], grey + {cs[0]});
        PlanHead(cs, queue, grey);
        HeadBelowTail(cs);
        AscendingAfterHead(Plan(cs, queue, grey).0, |queue|, cs[0], cs[1..]);
      }
    }
  }

  /** Planning a white head puts it right behind the queue, followed by children of the tail only. */
  lemma PlanHead(cs: seq<nat>, queue: seq<nat>, grey: set<nat>)
    requires |cs| > 0 && cs[0] !in grey
    ensures var r := Plan(cs, queue, grey).0;
      && r == Plan(cs[1..], queue + [cs[0]], grey + {cs[0]}).0
      && |queue| < |r| && r[|queue|] == cs[0]
      && forall x :: x in r[|queue| + 1..] ==> x in cs[1..]
  {
    var r := Plan(cs[1..], queue + [cs[0]], grey + {cs[0]}).0;
    assert r[..|queue| + 1][|queue|] == cs[0];
  }

  /** In an ascending sequence the head is below every element of the tail. */
  lemma HeadBelowTail(cs: seq<nat>)
    requires |cs| > 0 && Ascending(cs)
    ensures forall x :: x in cs[1..] ==> cs[0] < x
  {
    forall x | x in cs[1..] ensures cs[0] < x {
      var i :| 0 <= i < |cs[1..]| && cs[1..][i] == x;
      assert cs[i + 1] == x;
    }
  }

  /** A head below everything in an ascending rest gives an ascending whole. */
  lemma AscendingAfterHead(r: seq<nat>, n: nat, c: nat, later: seq<nat>)
    requires n < |r| && r[n] == c && Ascending(r[n + 1..])
    requires forall x :: x in r[n + 1..] ==> x in later
    requires forall x :: x in later ==> c < x
    ensures Ascending(r[n..])
  {
    var rest := r[n + 1..];
    forall y | y in rest ensures c < y {
      assert y in later;
    }
    ConsAscending(c, rest);
    assert r[n..] == [c] + rest;
  }

  lemma TailAscending(s: seq<nat>)
    requires |s| > 0 && Ascending(s)
    ensures Ascending(s[1..])
  {
    forall i, j | 0 <= i < j < |s| - 1 ensures s[1..][i] < s[1..][j] {
      assert s[1..][i] == s[i + 1] && s[1..][j] == s[j + 1];
    }
  }

  lemma ConsAscending(x: nat, t: seq<nat>)
    requires Ascending(t) && forall y :: y in t ==> x < y
    ensures Ascending([x] + t)
  {
    var s := [x] + t;
    forall i, j | 0 <= i < j < |s| ensures s[i] < s[j] {
      assert s[j] == t[j - 1];
      if i > 0 {
        assert s[i] == t[i - 1];
      } else {
        assert t[j - 1] in t;
      }
    }
  }

  /** The `while (planned.length > 0)` loop; `out` holds what was yielded so far. */
  function Loop<NV, W>(g: Graph<NV, W>, queue: seq<nat>, grey: set<nat>, out: seq<nat>): (r: seq<nat>)
    requires WellFormed(g)
    requires forall k :: 0 <= k < |queue| ==> queue[k] < |g.nodes|
    ensures |r| >= |out| && r[..|out|] == out
    decreases Ids(g) - grey, |queue|
  {
    if |queue| == 0 then out
    else
      var (queue', grey') := Turn(g, queue, grey);
      var r := Loop(g, queue', grey', out + [queue[0]]);
      PrefixOfLonger(r, out, queue[0]);
      r
  }

  /**
   * One turn of the loop: plan the children of the head behind the rest of
   * the queue. The queue stays within the graph, and either a white node
   * turns grey or the queue gets shorter.
   */
  function Turn<NV, W>(g: Graph<NV, W>, queue: seq<nat>, grey: set<nat>): (r: (seq<nat>, set<nat>))
    requires WellFormed(g) && |queue| > 0
    requires forall k :: 0 <= k < |queue| ==> queue[k] < |g.nodes|
    ensures forall k :: 0 <= k < |r.0| ==> r.0[k] < |g.nodes|
    ensures Ids(g) - r.1 < Ids(g) - grey || (r.1 == grey && |r.0| < |queue|)
  {
    QueueBounds(g, queue, grey);
    PlanShrinksWhite(g, ChildIds(g, queue[0]), queue[1..], grey);
    Plan(ChildIds(g, queue[0]), queue[1..], grey)
  }

  /** Planning children either greys a new node or leaves the grey set as it was. */
  lemma PlanShrinksWhite<NV, W>(g: Graph<NV, W>, cs: seq<nat>, queue: seq<nat>, grey: set<nat>)
    requires forall k :: 0 <= k < |cs| ==> cs[k] < |g.nodes|
    ensures var r := Plan(cs, queue, grey);
      Ids(g) - r.1 < Ids(g) - grey || r == (queue, grey)
  {
    var r := Plan(cs, queue, grey);
    if r.1 != grey {
      var x :| x in r.1 && x !in grey;
      assert x in Ids(g);
    }
  }

  /**
   * The traversal from the start id. An unknown start (including the empty
   * graph with no start given) fails with NODE_NOT_EXIST_ERROR before
   * anything is yielded; otherwise the ids come in the order yielded.
   */
  function Traverse<NV, W>(g: Graph<NV, W>, start: Option<int>): (r: Result<seq<nat>, Error>)
    requires WellFormed(g)
    ensures var s := BfsStart(g, start);
      r.Failure? <==> !(0 <= s < |g.nodes|)
    ensures r.Failure? ==> r.error == NodeNotExist
    ensures r.Success? ==> |r.value| > 0 && r.value[0] == BfsStart(g, start)
    ensures r.Success? ==> NoDups(r.value)
    ensures r.Success? ==> forall v: nat :: v in r.value <==> Reachable(g, BfsStart(g, start), v)
    ensures r.Success? ==> ParentsBefore(g, r.value, |r.value|)
    ensures r.Success? ==> DiscoveryOrder(g, r.value)
  {
    var s := BfsStart(g, start);
    if GetNodeChildrenById(g, s).Failure? then Failure(NodeNotExist)
    else
      var r := Loop(g, [s], {s}, []);
      ReachableSelf(g, s);
      assert [] + [s] == [s];
      LoopSpec(g, s, [s], {s}, []);
      Success(r)
  }

  /**
   * `r` is a breadth-first order of what `s` reaches: it starts at `s`,
   * lists each reachable node once and nothing else, every later node has
   * an earlier parent, and nodes come in discovery order.
   */
  ghost predicate IsBfsOrder<NV, W>(g: Graph<NV, W>, s: nat, r: seq<nat>) {
    && |r| > 0 && r[0] == s
    && NoDups(r)
    && (forall v: nat :: v in r <==> Reachable(g, s, v))
    && ParentsBefore(g, r, |r|)
    && DiscoveryOrder(g, r)
  }

  /**
   * The traversal's result is the one breadth-first order there is: any
   * sequence with the properties above equals it.
   */
  lemma TraverseIsTheBfsOrder<NV, W>(g: Graph<NV, W>, start: Option<int>, r: seq<nat>)
    requires WellFormed(g) && Traverse(g, start).Success?
    ensures IsBfsOrder(g, BfsStart(g, start) as nat, Traverse(g, start).value)
    ensures IsBfsOrder(g, BfsStart(g, start) as nat, r) <==> r == Traverse(g, start).value
  {
    var s := BfsStart(g, start) as nat;
    if IsBfsOrder(g, s, r) {
      BfsOrderUnique(g, s, r, Traverse(g, start).value);
    }
  }

  /** Two breadth-first orders from the same start are equal. */
  lemma BfsOrderUnique<NV, W>(g: Graph<NV, W>, s: nat, r1: seq<nat>, r2: seq<nat>)
    requires IsBfsOrder(g, s, r1) && IsBfsOrder(g, s, r2)
    ensures r1 == r2
  {
    SameLength(r1, r2);
    PrefixAgree(g, s, r1, r2, |r1|);
    assert r1 == r1[..|r1|] && r2 == r2[..|r2|];
  }

  /** Duplicate-free sequences with the same elements have the same length. */
  lemma SameLength(r1: seq<nat>, r2: seq<nat>)
    requires NoDups(r1) && NoDups(r2) && forall v :: v in r1 <==> v in r2
    ensures |r1| == |r2|
  {
    DistinctCount(r1);
    DistinctCount(r2);
    assert Elements(r1) == Elements(r2);
  }

  /** The set of a sequence's elements. */
  ghost function Elements(r: seq<nat>): (e: set<nat>)
    ensures forall v :: v in e <==> v in r
  {
    if |r| == 0 then {} else {r[0]} + Elements(r[1..])
  }

  /** A duplicate-free sequence has as many elements as its set. */
  lemma {:induction false} DistinctCount(r: seq<nat>)
    requires NoDups(r)
    ensures |Elements(r)| == |r|
  {
    if |r| > 0 {
      TailDistinct(r);
      DistinctCount(r[1..]);
      assert Elements(r) == {r[0]} + Elements(r[1..]);
    }
  }

  /** The tail of a duplicate-free sequence is duplicate-free and lacks the head. */
  lemma TailDistinct(r: seq<nat>)
    requires |r| > 0 && NoDups(r)
    ensures NoDups(r[1..]) && r[0] !in r[1..]
  {
    forall i, j | 0 <= i < j < |r[1..]| ensures r[1..][i] != r[1..][j] {
      assert r[1..][i] == r[i + 1] && r[1..][j] == r[j + 1];
    }
    forall i | 0 <= i < |r[1..]| ensures r[1..][i] != r[0] {
      assert r[1..][i] == r[i + 1];
    }
  }

  /** Two breadth-first orders from the same start agree on their first `k` places. */
  lemma {:induction false} PrefixAgree<NV, W>(g: Graph<NV, W>, s: nat, r1: seq<nat>, r2: seq<nat>, k: nat)
    requires IsBfsOrder(g, s, r1) && IsBfsOrder(g, s, r2)
    requires k <= |r1| && k <= |r2|
    ensures r1[..k] == r2[..k]
  {
    if k > 0 {
      var p := k - 1;
      PrefixAgree(g, s, r1, r2, p);
      if p > 0 {
        SamePlace(g, s, r1, r2, p);
      }
      assert r1[..k] == r1[..p] + [r1[p]] && r2[..k] == r2[..p] + [r2[p]];
    }
  }

  /**
   * Where two breadth-first orders agree before `p`, they agree at `p`. Each
   * node at `p` sits at `p` or later in the other order, with the same first
   * parent; were both later, discovery order would put each of the two
   * nodes before the other.
   */
  lemma SamePlace<NV, W>(g: Graph<NV, W>, s: nat, r1: seq<nat>, r2: seq<nat>, p: nat)
    requires IsBfsOrder(g, s, r1) && IsBfsOrder(g, s, r2)
    requires 0 < p < |r1| && p < |r2| && r1[..p] == r2[..p]
    ensures r1[p] == r2[p]
  {
    var q, j1 := PlaceIn(g, s, r1, r2, p);
    var q', j2 := PlaceIn(g, s, r2, r1, p);
    assert q == p || q' == p;
  }

  /**
   * When two orders agree before `p`, the node `r1[p]` sits at a place
   * `q >= p` of `r2`, with the same first parent `j` in both.
   */
  lemma PlaceIn<NV, W>(g: Graph<NV, W>, s: nat, r1: seq<nat>, r2: seq<nat>, p: nat) returns (q: nat, j: nat)
    requires IsBfsOrder(g, s, r1) && IsBfsOrder(g, s, r2)
    requires 0 < p < |r1| && p < |r2| && r1[..p] == r2[..p]
    ensures p <= q < |r2| && r2[q] == r1[p]
    ensures IsFirstParent(g, r1, p, j) && IsFirstParent(g, r2, q, j)
  {
    var x := r1[p];
    assert x in r1;
    assert x in r2;
    forall i | 0 <= i < p ensures r2[i] != x {
      assert r1[..p][i] == r2[..p][i];
    }
    q :| 0 <= q < |r2| && r2[q] == x;
    assert HasParentBefore(g, r1, p, |r1|);
    var j0 :| 0 <= j0 < p && HasEdge(g, r1[j0], r1[p]);
    j := LeastParent(g, r1, p, j0);
    forall i | 0 <= i <= j ensures r2[i] == r1[i] {
      assert r1[..p][i] == r2[..p][i];
    }
  }

  /** Below any parent of position `k` lies a first parent. */
  lemma LeastParent<NV, W>(g: Graph<NV, W>, r: seq<nat>, k: nat, j0: nat) returns (j: nat)
    requires j0 < k < |r| && HasEdge(g, r[j0], r[k])
    ensures j <= j0 && IsFirstParent(g, r, k, j)
    decreases j0
  {
    if i :| 0 <= i < j0 && HasEdge(g, r[i], r[k]) {
      j := LeastParent(g, r, k, i);
    } else {
      j := j0;
    }
  }

  /**
   * Position `j` holds the first parent of position `k`: the earliest
   * element with an edge into `r[k]`, and it comes before `k`.
   */
  ghost predicate IsFirstParent<NV, W>(g: Graph<NV, W>, r: seq<nat>, k: nat, j: nat) {
    && j < k < |r|
    && HasEdge(g, r[j], r[k])
    && forall i :: 0 <= i < j ==> !HasEdge(g, r[i], r[k])
  }

  /**
   * First-in, first-out order: every element after the first comes after
   * the elements whose first parent is earlier than its own, and children
   * of the same first parent come in ascending id, the order of `ChildIds`.
   */
  ghost predicate DiscoveryOrder<NV, W>(g: Graph<NV, W>, r: seq<nat>) {
    forall k1, k2, j1, j2 :: 0 < k1 < k2 < |r| && IsFirstParent(g, r, k1, j1) && IsFirstParent(g, r, k2, j2) ==>
      j1 < j2 || (j1 == j2 && r[k1] < r[k2])
  }

  /** Every element but the first has a parent (an edge into it) among the first `m`, earlier. */
  ghost predicate ParentsBefore<NV, W>(g: Graph<NV, W>, all: seq<nat>, m: nat) {
    forall k :: 0 < k < |all| ==> HasParentBefore(g, all, k, m)
  }

  /** An edge enters `all[k]` from an element at a position before both `k` and `m`. */
  ghost predicate HasParentBefore<NV, W>(g: Graph<NV, W>, all: seq<nat>, k: nat, m: nat)
    requires k < |all|
  {
    exists j :: 0 <= j < k && j < m && HasEdge(g, all[j], all[k])
  }

  /** `grey` holds exactly the elements of `all`. */
  ghost predicate GreyIsPlanned(all: seq<nat>, grey: set<nat>) {
    forall x :: x in grey <==> x in all
  }

  /** Everything grey is reachable from the start. */
  ghost predicate GreyReachable<NV, W>(g: Graph<NV, W>, s: nat, grey: set<nat>) {
    forall x :: x in grey ==> Reachable(g, s, x)
  }

  lemma {:induction false} LoopSpec<NV, W>(g: Graph<NV, W>, s: nat, queue: seq<nat>, grey: set<nat>, out: seq<nat>)
    requires WellFormed(g) && s < |g.nodes|
    requires forall k :: 0 <= k < |queue| ==> queue[k] < |g.nodes|
    requires grey <= Ids(g)
    requires |out + queue| > 0 && (out + queue)[0] == s
    requires NoDups(out + queue)
    requires GreyIsPlanned(out + queue, grey)
    requires GreyReachable(g, s, grey)
    requires ChildrenGrey(g, out, grey)
    requires ParentsBefore(g, out + queue, |out|)
    requires DiscoveryOrder(g, out + queue)
    ensures var r := Loop(g, queue, grey, out);
      && |r| > 0 && r[0] == s
      && NoDups(r)
      && (forall v: nat :: v in r <==> Reachable(g, s, v))
      && ParentsBefore(g, r, |r|)
      && DiscoveryOrder(g, r)
    decreases Ids(g) - grey, |queue|
  {
    if |queue| == 0 {
      assert out + queue == out;
      forall v: nat ensures v in out <==> Reachable(g, s, v) {
        if Reachable(g, s, v) {
          assert Closed(g, grey);
          ClosedHoldsReachable(g, grey, s, v);
        }
      }
    } else {
      var u := queue[0];
      var (queue', grey') := Plan(ChildIds(g, u), queue[1..], grey);
      StepKeepsInv(g, s, queue, grey, out);
      StepDiscovery(g, queue, grey, out);
      LoopSpec(g, s, queue', grey', out + [u]);
    }
  }

  /** One turn of the loop keeps every part of the invariant. */
  lemma StepKeepsInv<NV, W>(g: Graph<NV, W>, s: nat, queue: seq<nat>, grey: set<nat>, out: seq<nat>)
    requires WellFormed(g) && s < |g.nodes| && |queue| > 0
    requires forall k :: 0 <= k < |queue| ==> queue[k] < |g.nodes|
    requires grey <= Ids(g)
    requires |out + queue| > 0 && (out + queue)[0] == s
    requires NoDups(out + queue)
    requires GreyIsPlanned(out + queue, grey)
    requires GreyReachable(g, s, grey)
    requires ChildrenGrey(g, out, grey)
    requires ParentsBefore(g, out + queue, |out|)
    ensures var u := queue[0];
      var (queue', grey') := Plan(ChildIds(g, u), queue[1..], grey);
      var out' := out + [u];
      && (forall k :: 0 <= k < |queue'| ==> queue'[k] < |g.nodes|)
      && grey' <= Ids(g)
      && |out' + queue'| > 0 && (out' + queue')[0] == s
      && NoDups(out' + queue')
      && GreyIsPlanned(out' + queue', grey')
      && GreyReachable(g, s, grey')
      && ChildrenGrey(g, out', grey')
      && ParentsBefore(g, out' + queue', |out'|)
  {
    StepBounds(g, queue, grey);
    StepOrder(g, queue, grey, out);
    StepReach(g, s, queue, grey, out);
  }

  /** The queue stays within the nodes, and so does the grey set. */
  lemma StepBounds<NV, W>(g: Graph<NV, W>, queue: seq<nat>, grey: set<nat>)
    requires WellFormed(g) && |queue| > 0
    requires forall k :: 0 <= k < |queue| ==> queue[k] < |g.nodes|
    requires grey <= Ids(g)
    ensures var (queue', grey') := Plan(ChildIds(g, queue[0]), queue[1..], grey);
      && (forall k :: 0 <= k < |queue'| ==> queue'[k] < |g.nodes|)
      && grey' <= Ids(g)
  {
    QueueBounds(g, queue, grey);
  }

  /** Planning the children of the head keeps every queued id within the nodes. */
  lemma QueueBounds<NV, W>(g: Graph<NV, W>, queue: seq<nat>, grey: set<nat>)
    requires WellFormed(g) && |queue| > 0
    requires forall k :: 0 <= k < |queue| ==> queue[k] < |g.nodes|
    ensures var (queue', grey') := Plan(ChildIds(g, queue[0]), queue[1..], grey);
      forall k :: 0 <= k < |queue'| ==> queue'[k] < |g.nodes|
  {
    var cs := ChildIds(g, queue[0]);
    var (queue', grey') := Plan(cs, queue[1..], grey);
    var added := queue'[|queue| - 1..];
    SplitQueue([], queue, queue');
    forall k | 0 <= k < |queue'| ensures queue'[k] < |g.nodes| {
      if k < |queue| - 1 {
        assert queue'[k] == queue[1..][k];
      } else {
        assert queue'[k] in added;
      }
    }
  }

  /** The planned sequence still starts at the start, has no repeats, and matches the grey set. */
  lemma StepOrder<NV, W>(g: Graph<NV, W>, queue: seq<nat>, grey: set<nat>, out: seq<nat>)
    requires WellFormed(g) && |queue| > 0 && queue[0] < |g.nodes|
    requires |out + queue| > 0
    requires NoDups(out + queue)
    requires GreyIsPlanned(out + queue, grey)
    ensures var u := queue[0];
      var (queue', grey') := Plan(ChildIds(g, u), queue[1..], grey);
      var out' := out + [u];
      && |out' + queue'| > 0 && (out' + queue')[0] == (out + queue)[0]
      && NoDups(out' + queue')
      && GreyIsPlanned(out' + queue', grey')
  {
    var cs := ChildIds(g, queue[0]);
    var (queue', grey') := Plan(cs, queue[1..], grey);
    var added := queue'[|queue| - 1..];
    var all := out + queue;
    SplitQueue(out, queue, queue');
    NoDupsStep(all, added, grey);
    forall x ensures x in grey' <==> x in all + added {
      if x in grey' && x !in grey { assert x in cs; assert x in added; }
    }
  }

  /** Reachability of the grey set, greyness of the children and parents-first all survive a turn. */
  lemma StepReach<NV, W>(g: Graph<NV, W>, s: nat, queue: seq<nat>, grey: set<nat>, out: seq<nat>)
    requires WellFormed(g) && |queue| > 0 && queue[0] < |g.nodes|
    requires GreyIsPlanned(out + queue, grey)
    requires GreyReachable(g, s, grey)
    requires ChildrenGrey(g, out, grey)
    requires ParentsBefore(g, out + queue, |out|)
    ensures var u := queue[0];
      var (queue', grey') := Plan(ChildIds(g, u), queue[1..], grey);
      var out' := out + [u];
      && GreyReachable(g, s, grey')
      && ChildrenGrey(g, out', grey')
      && ParentsBefore(g, out' + queue', |out'|)
  {
    var u := queue[0];
    var cs := ChildIds(g, u);
    assert u in grey by { assert |out| < |out + queue| && (out + queue)[|out|] == u; }
    GreyStep(g, s, u, grey, cs);
    ChildrenGreyStep(g, out, u, grey, cs);
    StepParents(g, queue, grey, out);
  }

  /** Parents-first survives a turn: what is appended has the dequeued node as parent. */
  lemma StepParents<NV, W>(g: Graph<NV, W>, queue: seq<nat>, grey: set<nat>, out: seq<nat>)
    requires WellFormed(g) && |queue| > 0 && queue[0] < |g.nodes|
    requires ParentsBefore(g, out + queue, |out|)
    ensures var (queue', grey') := Plan(ChildIds(g, queue[0]), queue[1..], grey);
      ParentsBefore(g, out + [queue[0]] + queue', |out| + 1)
  {
    var u := queue[0];
    var (queue', grey') := Plan(ChildIds(g, u), queue[1..], grey);
    var added := queue'[|queue| - 1..];
    var all := out + queue;
    SplitQueue(out, queue, queue');
    assert all[|out|] == u;
    ParentsStep(g, all, |out|, u, added);
  }

  /** Moving the head of the queue to the output, then appending, is appending to `out + queue`. */
  lemma SplitQueue(out: seq<nat>, queue: seq<nat>, queue': seq<nat>)
    requires |queue| > 0 && |queue'| >= |queue| - 1 && queue'[..|queue| - 1] == queue[1..]
    ensures queue' == queue[1..] + queue'[|queue| - 1..]
    ensures out + [queue[0]] + queue' == (out + queue) + queue'[|queue| - 1..]
  {
    assert queue' == queue'[..|queue| - 1] + queue'[|queue| - 1..];
    assert queue == [queue[0]] + queue[1..];
  }

  lemma GreyStep<NV, W>(g: Graph<NV, W>, s: nat, u: nat, grey: set<nat>, cs: seq<nat>)
    requires GreyReachable(g, s, grey) && u in grey
    requires forall v :: v in cs ==> HasEdge(g, u, v)
    ensures GreyReachable(g, s, grey + set c | c in cs)
  {
    forall x | x in grey + set c | c in cs ensures Reachable(g, s, x) {
      if x !in grey {
        ReachableStep(g, s, u, x);
      }
    }
  }

  lemma NoDupsStep(all: seq<nat>, added: seq<nat>, grey: set<nat>)
    requires NoDups(all) && NoDups(added)
    requires forall x :: x in all ==> x in grey
    requires forall x :: x in added ==> x !in grey
    ensures NoDups(all + added)
  {
    var all' := all + added;
    forall i, j | 0 <= i < j < |all'| ensures all'[i] != all'[j] {
      if j >= |all| {
        assert all'[j] == added[j - |all|];
        if i >= |all| {
          assert all'[i] == added[i - |all|];
        } else {
          assert all'[i] in all;
        }
      }
    }
  }

  lemma ChildrenGreyStep<NV, W>(g: Graph<NV, W>, out: seq<nat>, u: nat, grey: set<nat>, cs: seq<nat>)
    requires ChildrenGrey(g, out, grey)
    requires forall v :: HasEdge(g, u, v) ==> v in cs
    ensures ChildrenGrey(g, out + [u], grey + set c | c in cs)
  {
  }

  /** A turn keeps discovery order: the children it plans are found first by the node dequeued. */
  lemma StepDiscovery<NV, W>(g: Graph<NV, W>, queue: seq<nat>, grey: set<nat>, out: seq<nat>)
    requires WellFormed(g) && |queue| > 0 && queue[0] < |g.nodes|
    requires ChildrenGrey(g, out, grey)
    requires ParentsBefore(g, out + queue, |out|)
    requires DiscoveryOrder(g, out + queue)
    ensures var (queue', grey') := Plan(ChildIds(g, queue[0]), queue[1..], grey);
      DiscoveryOrder(g, out + [queue[0]] + queue')
  {
    var u := queue[0];
    var cs := ChildIds(g, u);
    var (queue', grey') := Plan(cs, queue[1..], grey);
    var added := queue'[|queue| - 1..];
    var all := out + queue;
    SplitQueue(out, queue, queue');
    PlanAscending(cs, queue[1..], grey);
    assert all[|out|] == u;
    forall i, v | 0 <= i < |out| && HasEdge(g, all[i], v) ensures v in grey {
      assert all[i] == out[i] && out[i] in out;
    }
    OrderStep(g, all, |out|, added, grey);
  }

  /** The first parent of a position is unique. */
  lemma FirstParentUnique<NV, W>(g: Graph<NV, W>, r: seq<nat>, k: nat, j: nat, j': nat)
    requires IsFirstParent(g, r, k, j) && IsFirstParent(g, r, k, j')
    ensures j == j'
  {
  }

  /**
   * Appending, behind `all`, children of `all[m]` that no element before
   * `m` points to, in ascending order, keeps discovery order: their first
   * parent is `m`, later than that of anything already in `all`.
   */
  lemma OrderStep<NV, W>(g: Graph<NV, W>, all: seq<nat>, m: nat, added: seq<nat>, grey: set<nat>)
    requires m < |all|
    requires ParentsBefore(g, all, m)
    requires DiscoveryOrder(g, all)
    requires forall i, v :: 0 <= i < m && HasEdge(g, all[i], v) ==> v in grey
    requires forall x :: x in added ==> HasEdge(g, all[m], x) && x !in grey
    requires Ascending(added)
    ensures DiscoveryOrder(g, all + added)
  {
    var all' := all + added;
    var n := |all|;
    forall k1, k2, j1, j2 | 0 < k1 < k2 < |all'| && IsFirstParent(g, all', k1, j1) && IsFirstParent(g, all', k2, j2)
      ensures j1 < j2 || (j1 == j2 && all'[k1] < all'[k2])
    {
      if k2 < n {
        OldFirstParent(g, all, added, k1, j1);
        OldFirstParent(g, all, added, k2, j2);
      } else if k1 < n {
        OldFirstParent(g, all, added, k1, j1);
        OldParentEarly(g, all, m, k1, j1);
        NewFirstParent(g, all, m, added, grey, k2, j2);
      } else {
        NewFirstParent(g, all, m, added, grey, k1, j1);
        NewFirstParent(g, all, m, added, grey, k2, j2);
        assert all'[k1] == added[k1 - n] && all'[k2] == added[k2 - n];
      }
    }
  }

  /** For a position of `all`, appending changes nothing about its first parent. */
  lemma OldFirstParent<NV, W>(g: Graph<NV, W>, all: seq<nat>, added: seq<nat>, k: nat, j: nat)
    requires k < |all| && IsFirstParent(g, all + added, k, j)
    ensures IsFirstParent(g, all, k, j)
  {
    var all' := all + added;
    assert all'[k] == all[k] && all'[j] == all[j];
    forall i | 0 <= i < j ensures !HasEdge(g, all[i], all[k]) {
      assert all'[i] == all[i];
    }
  }

  /** A position of `all` has its first parent before `m`. */
  lemma OldParentEarly<NV, W>(g: Graph<NV, W>, all: seq<nat>, m: nat, k: nat, j: nat)
    requires 0 < k && ParentsBefore(g, all, m) && IsFirstParent(g, all, k, j)
    ensures j < m
  {
    assert HasParentBefore(g, all, k, m);
  }

  /** An appended position's first parent is `m`. */
  lemma NewFirstParent<NV, W>(g: Graph<NV, W>, all: seq<nat>, m: nat, added: seq<nat>, grey: set<nat>, k: nat, j: nat)
    requires m < |all| <= k
    requires forall i, v :: 0 <= i < m && HasEdge(g, all[i], v) ==> v in grey
    requires forall x :: x in added ==> HasEdge(g, all[m], x) && x !in grey
    requires IsFirstParent(g, all + added, k, j)
    ensures j == m
  {
    var all' := all + added;
    var x := all'[k];
    assert x == added[k - |all|] && x in added;
    assert forall i :: 0 <= i < |all| ==> all'[i] == all[i];
    assert HasEdge(g, all'[m], x);
  }

  lemma ParentsStep<NV, W>(g: Graph<NV, W>, all: seq<nat>, m: nat, u: nat, added: seq<nat>)
    requires m < |all| && all[m] == u
    requires ParentsBefore(g, all, m)
    requires forall x :: x in added ==> HasEdge(g, u, x)
    ensures ParentsBefore(g, all + added, m + 1)
  {
    var all' := all + added;
    var m' := m + 1;
    forall k | 0 < k < |all'| ensures HasParentBefore(g, all', k, m') {
      if k < |all| {
        assert HasParentBefore(g, all, k, m);
        var j :| 0 <= j < k && j < m && HasEdge(g, all[j], all[k]);
        assert all'[j] == all[j] && all'[k] == all[k];
      } else {
        assert all'[k] in added;
        assert all'[m] == u;
      }
    }
  }
}
