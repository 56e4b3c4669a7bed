/** Paths and reachability in a `GraphProcessor` graph. */
module Reach {
  import opened Graph

  /** `p` walks along edges, one node to the next. */
  ghost predicate IsPath<NV, W>(g: Graph<NV, W>, p: seq<nat>) {
    |p| >= 1 && forall i :: 0 <= i < |p| - 1 ==> HasEdge(g, p[i], p[i + 1])
  }

  /** 0, 1, …, n-1. */
  function Range(n: nat): (r: seq<nat>)
    ensures |r| == n
    ensures forall i :: 0 <= i < n ==> r[i] == i
  {
    if n == 0 then [] else Range(n - 1) + [n - 1]
  }

  /** The ids of the nodes of a well-formed graph. */
  ghost function Ids<NV, W>(g: Graph<NV, W>): (ids: set<nat>)
    ensures forall x: nat :: x in ids <==> x < |g.nodes|
  {
    var r := Range(|g.nodes|);
    var ids := set x | x in r;
    forall x: nat ensures x in ids <==> x < |g.nodes| {
      if x < |g.nodes| {
        assert r[x] == x;
      }
      if x in r {
        var i :| 0 <= i < |r| && r[i] == x;
      }
    }
    ids
  }

  /** Every child of an element of `out` is in `grey`. */
  ghost predicate ChildrenGrey<NV, W>(g: Graph<NV, W>, out: seq<nat>, grey: set<nat>) {
    forall u: nat, v: nat :: u in out && HasEdge(g, u, v) ==> v in grey
  }

  /** Some path leads from `s` to `t` (every node reaches itself). */
  ghost predicate Reachable<NV, W>(g: Graph<NV, W>, s: nat, t: nat) {
    exists p :: IsPath(g, p) && p[0] == s && p[|p| - 1] == t
  }

  /** No edge leaves `S`. */
  ghost predicate Closed<NV, W>(g: Graph<NV, W>, S: set<nat>) {
    forall u: nat, v: nat :: u in S && HasEdge(g, u, v) ==> v in S
  }

  lemma ReachableSelf<NV, W>(g: Graph<NV, W>, s: nat)
    ensures Reachable(g, s, s)
  {
    assert IsPath(g, [s]);
  }

  /** Extending a path by one edge. */
  lemma ReachableStep<NV, W>(g: Graph<NV, W>, s: nat, u: nat, v: nat)
    requires Reachable(g, s, u) && HasEdge(g, u, v)
    ensures Reachable(g, s, v)
  {
    var p :| IsPath(g, p) && p[0] == s && p[|p| - 1] == u;
    assert IsPath(g, p + [v]);
  }

  /** An edge followed by a path. */
  lemma ReachableFromEdge<NV, W>(g: Graph<NV, W>, u: nat, v: nat, t: nat)
    requires HasEdge(g, u, v) && Reachable(g, v, t)
    ensures Reachable(g, u, t)
  {
    var p :| IsPath(g, p) && p[0] == v && p[|p| - 1] == t;
    assert IsPath(g, [u] + p);
  }

  /** A set closed under edges that holds `s` holds every node reachable from `s`. */
  lemma ClosedHoldsReachable<NV, W>(g: Graph<NV, W>, S: set<nat>, s: nat, t: nat)
    requires Closed(g, S) && s in S && Reachable(g, s, t)
    ensures t in S
  {
    var p :| IsPath(g, p) && p[0] == s && p[|p| - 1] == t;
    PathStaysInClosed(g, S, p);
  }

  lemma {:induction false} PathStaysInClosed<NV, W>(g: Graph<NV, W>, S: set<nat>, p: seq<nat>)
    requires Closed(g, S) && IsPath(g, p) && p[0] in S
    ensures p[|p| - 1] in S
  {
    if |p| > 1 {
      assert HasEdge(g, p[0], p[1]);
      assert IsPath(g, p[1..]);
      PathStaysInClosed(g, S, p[1..]);
    }
  }

  /** In a well-formed graph, whatever is reachable from a node is a node. */
  lemma ReachableIsNode<NV, W>(g: Graph<NV, W>, s: nat, t: nat)
    requires WellFormed(g) && s < |g.nodes| && Reachable(g, s, t)
    ensures t < |g.nodes|
  {
    var p :| IsPath(g, p) && p[0] == s && p[|p| - 1] == t;
    if |p| > 1 {
      var i := |p| - 2;
      assert HasEdge(g, p[i], p[i + 1]);
      var k :| 0 <= k < |g.edges| && g.edges[k].start == p[i] && g.edges[k].end == p[i + 1];
    }
  }
}
