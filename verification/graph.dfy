/**
 * `GraphProcessor`: a directed graph kept as a sequence of nodes and a
 * sequence of weighted edges. Node values are compared with a caller-given
 * equality, standing for JavaScript's `===` on the value type.
 */
module Graph {
  import opened Wrappers
  import opened Common
  import opened Seqs

  datatype Node<NV> = Node(id: nat, value: NV)
  datatype Edge<W> = Edge(start: nat, end: nat, weight: W)
  /** An edge seen from one endpoint, `start` being the endpoint asked about. */
  datatype UnorderedEdge = UnorderedEdge(start: nat, end: nat)

  /** `nextId` is the private `_id` counter. */
  datatype Graph<NV, W> = Graph(nodes: seq<Node<NV>>, edges: seq<Edge<W>>, nextId: nat)

  /** Node equality, JavaScript `===` on the node value type. */
  type Equality<!NV> = (NV, NV) -> bool

  /**
   * The class invariant: ids are dense (the node at position i has id i and
   * the counter is the node count), and every edge joins two existing nodes.
   */
  ghost predicate WellFormed<NV, W>(g: Graph<NV, W>) {
    && g.nextId == |g.nodes|
    && (forall i :: 0 <= i < |g.nodes| ==> g.nodes[i].id == i)
    && (forall k :: 0 <= k < |g.edges| ==> g.edges[k].start < |g.nodes| && g.edges[k].end < |g.nodes|)
  }

  /** No two edges join the same ordered pair of nodes, whatever their weights. */
  ghost predicate EdgesUnique<NV, W>(g: Graph<NV, W>) {
    forall k, l :: 0 <= k < l < |g.edges| ==>
      g.edges[k].start != g.edges[l].start || g.edges[k].end != g.edges[l].end
  }

  /** No node value equals (by `eq`) the value of a node added before it. */
  ghost predicate ValuesDistinct<NV, W>(g: Graph<NV, W>, eq: Equality<NV>) {
    forall i, j :: 0 <= i < j < |g.nodes| ==> !eq(g.nodes[i].value, g.nodes[j].value)
  }

  /** There is an edge from `s` to `e`. */
  ghost predicate HasEdge<NV, W>(g: Graph<NV, W>, s: int, e: int) {
    exists k :: 0 <= k < |g.edges| && g.edges[k].start == s && g.edges[k].end == e
  }

  /** A new, empty graph. */
  function Empty<NV, W>(): (g: Graph<NV, W>)
    ensures WellFormed(g) && EdgesUnique(g)
    ensures |g.nodes| == 0 && |g.edges| == 0
  {
    Graph([], [], 0)
  }

  /** `getNodeByValue`: the first node whose value equals `v`, or null. */
  function GetNodeByValue<NV, W>(g: Graph<NV, W>, eq: Equality<NV>, v: NV): (r: Option<Node<NV>>)
    ensures r.Some? <==> exists i :: 0 <= i < |g.nodes| && eq(g.nodes[i].value, v)
    ensures r.Some? ==> exists i :: 0 <= i < |g.nodes| && g.nodes[i] == r.value && eq(r.value.value, v)
  {
    match FindIndex(g.nodes, (n: Node<NV>) => eq(n.value, v))
    case None => None
    case Some(i) => Some(g.nodes[i])
  }

  /** `getNodeById`: the first node with that id, or null. */
  function GetNodeById<NV, W>(g: Graph<NV, W>, id: int): (r: Option<Node<NV>>)
    ensures r.Some? ==> r.value.id == id && exists i :: 0 <= i < |g.nodes| && g.nodes[i] == r.value
    ensures r.None? ==> forall i :: 0 <= i < |g.nodes| ==> g.nodes[i].id != id
    ensures WellFormed(g) ==> r == if 0 <= id < |g.nodes| then Some(g.nodes[id]) else None
  {
    match FindIndex(g.nodes, (n: Node<NV>) => n.id == id)
    case None => None
    case Some(i) => Some(g.nodes[i])
  }

  /**
   * `addNode`: appends the value under the next id, unless a node with an
   * equal value exists (NODE_HAS_BEEN_ADDED_ERROR, nothing changes).
   */
  function AddNode<NV, W>(g: Graph<NV, W>, eq: Equality<NV>, v: NV): (r: Result<Graph<NV, W>, Error>)
    ensures r.Failure? <==> exists i :: 0 <= i < |g.nodes| && eq(g.nodes[i].value, v)
    ensures r.Failure? ==> r.error == NodeHasBeenAdded
    ensures r.Success? ==> r.value.nodes == g.nodes + [Node(g.nextId, v)] && r.value.edges == g.edges
    ensures r.Success? && WellFormed(g) ==> WellFormed(r.value) && r.value.nodes[|g.nodes|].id == |g.nodes|
    ensures r.Success? && EdgesUnique(g) ==> EdgesUnique(r.value)
    ensures r.Success? && ValuesDistinct(g, eq) ==> ValuesDistinct(r.value, eq)
  {
    if GetNodeByValue(g, eq, v).Some? then Failure(NodeHasBeenAdded)
    else Success(Graph(g.nodes + [Node(g.nextId, v)], g.edges, g.nextId + 1))
  }

  /**
   * `addEdge`: looks both endpoints up by value (NODE_NOT_EXIST_ERROR when
   * either is missing, start first), refuses an existing (start, end) pair
   * whatever its weight (EDGE_HAS_BEEN_ADDED_ERROR), else appends one edge.
   */
  function AddEdge<NV, W>(g: Graph<NV, W>, eq: Equality<NV>, s: NV, e: NV, w: W): (r: Result<Graph<NV, W>, Error>)
    ensures GetNodeByValue(g, eq, s).None? ==> r == Failure(NodeNotExist)
    ensures GetNodeByValue(g, eq, s).Some? && GetNodeByValue(g, eq, e).None? ==> r == Failure(NodeNotExist)
    ensures GetNodeByValue(g, eq, s).Some? && GetNodeByValue(g, eq, e).Some? ==>
      var si := GetNodeByValue(g, eq, s).value.id;
      var ei := GetNodeByValue(g, eq, e).value.id;
      && (r.Failure? <==> HasEdge(g, si, ei))
      && (r.Failure? ==> r.error == EdgeHasBeenAdded)
      && (r.Success? ==> r.value == g.(edges := g.edges + [Edge(si, ei, w)]))
    ensures r.Success? && WellFormed(g) ==> WellFormed(r.value)
    ensures r.Success? && EdgesUnique(g) ==> EdgesUnique(r.value)
  {
    match GetNodeByValue(g, eq, s)
    case None => Failure(NodeNotExist)
    case Some(sn) =>
      match GetNodeByValue(g, eq, e)
      case None => Failure(NodeNotExist)
      case Some(en) =>
        if FindIndex(g.edges, (x: Edge<W>) => x.start == sn.id && x.end == en.id).Some? then
          Failure(EdgeHasBeenAdded)
        else
          Success(g.(edges := g.edges + [Edge(sn.id, en.id, w)]))
  }

  /** The edges leaving `id`, in insertion order. */
  function Outgoing<NV, W>(g: Graph<NV, W>, id: int): seq<Edge<W>> {
    Filter(g.edges, (x: Edge<W>) => x.start == id)
  }

  /** The edges entering `id`, in insertion order. */
  function Incoming<NV, W>(g: Graph<NV, W>, id: int): seq<Edge<W>> {
    Filter(g.edges, (x: Edge<W>) => x.end == id)
  }

  /** The ends of the edges leaving `id`, in edge order. */
  function OutgoingEnds<NV, W>(g: Graph<NV, W>, id: int): seq<nat> {
    Map(Outgoing(g, id), (x: Edge<W>) => x.end)
  }

  /** `v` ends an edge leaving `id` exactly when there is such an edge. */
  lemma OutgoingEndsIn<NV, W>(g: Graph<NV, W>, id: int, v: int)
    ensures v in OutgoingEnds(g, id) <==> HasEdge(g, id, v)
  {
    var out := Outgoing(g, id);
    var ends := OutgoingEnds(g, id);
    if v in ends {
      var j :| 0 <= j < |ends| && ends[j] == v;
      FilterAt(g.edges, (x: Edge<W>) => x.start == id, j);
      var k :| 0 <= k < |g.edges| && g.edges[k] == out[j];
    }
    if HasEdge(g, id, v) {
      var k :| 0 <= k < |g.edges| && g.edges[k].start == id && g.edges[k].end == v;
      FilterIn(g.edges, (x: Edge<W>) => x.start == id, g.edges[k]);
      var j :| 0 <= j < |out| && out[j] == g.edges[k];
      assert ends[j] == v;
    }
  }

  /** The nodes that end an edge leaving `id`, in node order. */
  function ChildrenOf<NV, W>(g: Graph<NV, W>, id: int): seq<Node<NV>> {
    var ends := OutgoingEnds(g, id);
    Filter(g.nodes, (n: Node<NV>) => n.id in ends)
  }

  /**
   * `getNodeChildrenById`: the nodes that end an edge from `id`, in node
   * order; NODE_NOT_EXIST_ERROR for an unknown id.
   */
  function GetNodeChildrenById<NV, W>(g: Graph<NV, W>, id: int): (r: Result<seq<Node<NV>>, Error>)
    ensures r.Failure? <==> GetNodeById(g, id).None?
    ensures r.Failure? ==> r.error == NodeNotExist
    ensures r.Success? ==> r.value == ChildrenOf(g, id)
  {
    if GetNodeById(g, id).None? then Failure(NodeNotExist) else Success(ChildrenOf(g, id))
  }

  /** Node ids strictly increase along the sequence. */
  ghost predicate IdsAscending<NV>(ns: seq<Node<NV>>) {
    forall i, j :: 0 <= i < j < |ns| ==> ns[i].id < ns[j].id
  }

  /**
   * The children of `id` are exactly the nodes at the end of an edge from it;
   * in a well-formed graph they come in ascending id order, so none repeats.
   */
  lemma ChildrenOfSpec<NV, W>(g: Graph<NV, W>, id: int)
    ensures var cs := ChildrenOf(g, id);
      forall k :: 0 <= k < |cs| ==> cs[k] in g.nodes && HasEdge(g, id, cs[k].id)
    ensures var cs := ChildrenOf(g, id);
      forall i :: 0 <= i < |g.nodes| && HasEdge(g, id, g.nodes[i].id) ==> g.nodes[i] in cs
    ensures WellFormed(g) ==> IdsAscending(ChildrenOf(g, id))
  {
    var ends := OutgoingEnds(g, id);
    var keep := (n: Node<NV>) => n.id in ends;
    var cs := ChildrenOf(g, id);
    forall k | 0 <= k < |cs| ensures cs[k] in g.nodes && HasEdge(g, id, cs[k].id) {
      FilterAt(g.nodes, keep, k);
      OutgoingEndsIn(g, id, cs[k].id);
    }
    forall i | 0 <= i < |g.nodes| && HasEdge(g, id, g.nodes[i].id) ensures g.nodes[i] in cs {
      OutgoingEndsIn(g, id, g.nodes[i].id);
      FilterIn(g.nodes, keep, g.nodes[i]);
    }
    if WellFormed(g) {
      FilterKeepsAscending(g.nodes, keep);
    }
  }

  /** Filtering a node sequence with ascending ids keeps the ids ascending. */
  lemma {:induction false} FilterKeepsAscending<NV>(ns: seq<Node<NV>>, keep: Node<NV> -> bool)
    requires IdsAscending(ns)
    ensures IdsAscending(Filter(ns, keep))
  {
    if |ns| > 0 {
      var rest := Filter(ns[1..], keep);
      FilterKeepsAscending(ns[1..], keep);
      if keep(ns[0]) {
        forall k | 0 <= k < |rest| ensures ns[0].id < rest[k].id {
          FilterAt(ns[1..], keep, k);
          var m :| 0 <= m < |ns[1..]| && ns[1..][m] == rest[k];
          assert ns[m + 1] == rest[k];
        }
        assert Filter(ns, keep) == [ns[0]] + rest;
      } else {
        assert Filter(ns, keep) == rest;
      }
    }
  }

  /** The ids of the children of a known node: what the traversals iterate over. */
  function ChildIds<NV, W>(g: Graph<NV, W>, id: nat): (r: seq<nat>)
    requires WellFormed(g) && id < |g.nodes|
    ensures forall v :: v in r <==> HasEdge(g, id, v)
    ensures forall k :: 0 <= k < |r| ==> r[k] < |g.nodes|
    ensures forall i, j :: 0 <= i < j < |r| ==> r[i] < r[j]
  {
    var cs := ChildrenOf(g, id);
    ChildrenOfSpec(g, id);
    var r := Map(cs, (n: Node<NV>) => n.id);
    assert forall v :: HasEdge(g, id, v) ==> v in r by {
      forall v | HasEdge(g, id, v) ensures v in r {
        var k :| 0 <= k < |g.edges| && g.edges[k].start == id && g.edges[k].end == v;
        assert g.nodes[v] in cs;
        var j :| 0 <= j < |cs| && cs[j] == g.nodes[v];
        assert r[j] == v;
      }
    }
    assert forall k :: 0 <= k < |r| ==> r[k] < |g.nodes| by {
      forall k | 0 <= k < |r| ensures r[k] < |g.nodes| {
        assert cs[k] in g.nodes;
      }
    }
    r
  }

  /** `getNodeChildrenByValue`: the children of the node holding `v`; NODE_NOT_EXIST_ERROR if none does. */
  function GetNodeChildrenByValue<NV, W>(g: Graph<NV, W>, eq: Equality<NV>, v: NV): (r: Result<seq<Node<NV>>, Error>)
    ensures GetNodeByValue(g, eq, v).None? ==> r == Failure(NodeNotExist)
    ensures WellFormed(g) && GetNodeByValue(g, eq, v).Some? ==>
      r == Success(ChildrenOf(g, GetNodeByValue(g, eq, v).value.id))
  {
    match GetNodeByValue(g, eq, v)
    case None => Failure(NodeNotExist)
    case Some(n) => GetNodeChildrenById(g, n.id)
  }

  /** `getNodeWeightsById`: weights of the edges leaving `id`, in insertion order; no check on the id. */
  function GetNodeWeightsById<NV, W>(g: Graph<NV, W>, id: int): (r: seq<W>)
    ensures |r| == |Outgoing(g, id)|
    ensures forall k :: 0 <= k < |r| ==> r[k] == Outgoing(g, id)[k].weight
  {
    Map(Outgoing(g, id), (x: Edge<W>) => x.weight)
  }

  /** An id no edge leaves, in particular an unknown id, has no weights (and no error). */
  lemma WeightsOfUnknownId<NV, W>(g: Graph<NV, W>, id: int)
    requires WellFormed(g) && GetNodeById(g, id).None?
    ensures GetNodeWeightsById(g, id) == []
  {
    var out := Outgoing(g, id);
    if |out| > 0 {
      FilterAt(g.edges, (x: Edge<W>) => x.start == id, 0);
      assert false;
    }
  }

  /** `getNodeWeightsByValue`: as by id, but an unknown value is NODE_NOT_EXIST_ERROR. */
  function GetNodeWeightsByValue<NV, W>(g: Graph<NV, W>, eq: Equality<NV>, v: NV): (r: Result<seq<W>, Error>)
    ensures r.Failure? <==> GetNodeByValue(g, eq, v).None?
    ensures r.Failure? ==> r.error == NodeNotExist
    ensures r.Success? ==> r.value == GetNodeWeightsById(g, GetNodeByValue(g, eq, v).value.id)
  {
    match GetNodeByValue(g, eq, v)
    case None => Failure(NodeNotExist)
    case Some(n) => Success(GetNodeWeightsById(g, n.id))
  }

  /**
   * `getUnorderedEdgesById`: the edges touching `id` as (id, other) pairs,
   * the outgoing ones first, then the incoming ones with endpoints swapped.
   */
  function GetUnorderedEdgesById<NV, W>(g: Graph<NV, W>, id: int): (r: seq<UnorderedEdge>)
    ensures |r| == |Outgoing(g, id)| + |Incoming(g, id)|
    ensures forall k :: 0 <= k < |r| ==> r[k].start == id
  {
    var out, inc := Outgoing(g, id), Incoming(g, id);
    assert forall k :: 0 <= k < |out| ==> out[k].start == id by {
      forall k | 0 <= k < |out| ensures out[k].start == id {
        FilterAt(g.edges, (x: Edge<W>) => x.start == id, k);
      }
    }
    assert forall k :: 0 <= k < |inc| ==> inc[k].end == id by {
      forall k | 0 <= k < |inc| ensures inc[k].end == id {
        FilterAt(g.edges, (x: Edge<W>) => x.end == id, k);
      }
    }
    Map(out, (x: Edge<W>) => UnorderedEdge(x.start, x.end))
    + Map(inc, (x: Edge<W>) => UnorderedEdge(x.end, x.start))
  }

  /** Every edge touching `id` appears, as the pair (id, other end). */
  lemma UnorderedEdgesComplete<NV, W>(g: Graph<NV, W>, id: int, e: Edge<W>)
    requires e in g.edges
    ensures e.start == id ==> UnorderedEdge(id, e.end) in GetUnorderedEdgesById(g, id)
    ensures e.end == id ==> UnorderedEdge(id, e.start) in GetUnorderedEdgesById(g, id)
  {
    var out, inc := Outgoing(g, id), Incoming(g, id);
    var r := GetUnorderedEdgesById(g, id);
    if e.start == id {
      FilterIn(g.edges, (x: Edge<W>) => x.start == id, e);
      var i :| 0 <= i < |out| && out[i] == e;
      assert r[i] == UnorderedEdge(id, e.end);
    }
    if e.end == id {
      FilterIn(g.edges, (x: Edge<W>) => x.end == id, e);
      var i :| 0 <= i < |inc| && inc[i] == e;
      assert r[|out| + i] == UnorderedEdge(id, e.start);
    }
  }

  /** `searchNodes`: the nodes whose value satisfies `p`, in node order. */
  function SearchNodes<NV, W>(g: Graph<NV, W>, p: NV -> bool): (r: seq<Node<NV>>)
    ensures forall k :: 0 <= k < |r| ==> r[k] in g.nodes && p(r[k].value)
    ensures forall i :: 0 <= i < |g.nodes| && p(g.nodes[i].value) ==> g.nodes[i] in r
  {
    var r := Filter(g.nodes, (n: Node<NV>) => p(n.value));
    assert forall k :: 0 <= k < |r| ==> r[k] in g.nodes && p(r[k].value) by {
      forall k | 0 <= k < |r| ensures r[k] in g.nodes && p(r[k].value) {
        FilterIn(g.nodes, (n: Node<NV>) => p(n.value), r[k]);
      }
    }
    assert forall i :: 0 <= i < |g.nodes| && p(g.nodes[i].value) ==> g.nodes[i] in r by {
      forall i | 0 <= i < |g.nodes| && p(g.nodes[i].value) ensures g.nodes[i] in r {
        FilterIn(g.nodes, (n: Node<NV>) => p(n.value), g.nodes[i]);
      }
    }
    r
  }

  /** `hasNodesWith`: some node's value satisfies `p`. */
  function HasNodesWith<NV, W>(g: Graph<NV, W>, p: NV -> bool): (b: bool)
    ensures b <==> exists i :: 0 <= i < |g.nodes| && p(g.nodes[i].value)
  {
    var found := SearchNodes(g, p);
    assert |found| > 0 ==> exists i :: 0 <= i < |g.nodes| && p(g.nodes[i].value) by {
      if |found| > 0 {
        FilterAt(g.nodes, (n: Node<NV>) => p(n.value), 0);
        var i :| 0 <= i < |g.nodes| && g.nodes[i] == found[0];
      }
    }
    assert (exists i :: 0 <= i < |g.nodes| && p(g.nodes[i].value)) ==> |found| > 0 by {
      if exists i :: 0 <= i < |g.nodes| && p(g.nodes[i].value) {
        var i :| 0 <= i < |g.nodes| && p(g.nodes[i].value);
        FilterIn(g.nodes, (n: Node<NV>) => p(n.value), g.nodes[i]);
      }
    }
    |found| > 0
  }

  /** The position of the first node whose value satisfies `p`. */
  function FirstNodeWith<NV, W>(g: Graph<NV, W>, p: NV -> bool): (r: Option<nat>)
    ensures r.Some? ==> r.value < |g.nodes| && p(g.nodes[r.value].value)
    ensures r.Some? ==> forall k :: 0 <= k < r.value ==> !p(g.nodes[k].value)
    ensures r.None? ==> forall k :: 0 <= k < |g.nodes| ==> !p(g.nodes[k].value)
  {
    FindIndex(g.nodes, (n: Node<NV>) => p(n.value))
  }

  /** `searchNodes(p)[0]` is the first node satisfying `p`, and is there exactly when one is. */
  lemma SearchNodesFirst<NV, W>(g: Graph<NV, W>, p: NV -> bool)
    ensures |SearchNodes(g, p)| > 0 <==> FirstNodeWith(g, p).Some?
    ensures |SearchNodes(g, p)| > 0 ==> SearchNodes(g, p)[0] == g.nodes[FirstNodeWith(g, p).value]
  {
    FilterFirst(g.nodes, (n: Node<NV>) => p(n.value));
  }

  /** `searchEdges`: the edges whose weight satisfies `p`, in insertion order. */
  function SearchEdges<NV, W>(g: Graph<NV, W>, p: W -> bool): (r: seq<Edge<W>>)
    ensures forall k :: 0 <= k < |r| ==> r[k] in g.edges && p(r[k].weight)
    ensures forall i :: 0 <= i < |g.edges| && p(g.edges[i].weight) ==> g.edges[i] in r
  {
    var r := Filter(g.edges, (x: Edge<W>) => p(x.weight));
    assert forall k :: 0 <= k < |r| ==> r[k] in g.edges && p(r[k].weight) by {
      forall k | 0 <= k < |r| ensures r[k] in g.edges && p(r[k].weight) {
        FilterIn(g.edges, (x: Edge<W>) => p(x.weight), r[k]);
      }
    }
    assert forall i :: 0 <= i < |g.edges| && p(g.edges[i].weight) ==> g.edges[i] in r by {
      forall i | 0 <= i < |g.edges| && p(g.edges[i].weight) ensures g.edges[i] in r {
        FilterIn(g.edges, (x: Edge<W>) => p(x.weight), g.edges[i]);
      }
    }
    r
  }

  /** `searchEdges(p)[0]` exists exactly when some edge's weight satisfies `p`. */
  lemma SearchEdgesNonEmpty<NV, W>(g: Graph<NV, W>, p: W -> bool)
    ensures |SearchEdges(g, p)| > 0 <==> exists k :: 0 <= k < |g.edges| && p(g.edges[k].weight)
  {
    FilterFirst(g.edges, (x: Edge<W>) => p(x.weight));
  }

  /**
   * Every unordered edge starts at the node asked about; the outgoing edges
   * come first in insertion order, then the incoming ones reversed.
   */
  lemma UnorderedEdgesOrder<NV, W>(g: Graph<NV, W>, id: nat)
    ensures var r := GetUnorderedEdgesById(g, id);
      |r| == |Outgoing(g, id)| + |Incoming(g, id)|
    ensures var r := GetUnorderedEdgesById(g, id);
      forall k :: 0 <= k < |r| ==> r[k].start == id
    ensures var r := GetUnorderedEdgesById(g, id);
      forall k :: 0 <= k < |Outgoing(g, id)| ==> r[k].end == Outgoing(g, id)[k].end
    ensures var r := GetUnorderedEdgesById(g, id);
      forall k :: 0 <= k < |Incoming(g, id)| ==> r[|Outgoing(g, id)| + k].end == Incoming(g, id)[k].start
  {
    var out := Outgoing(g, id);
    var inc := Incoming(g, id);
    forall k | 0 <= k < |out| ensures out[k].start == id {
      FilterAt(g.edges, (x: Edge<W>) => x.start == id, k);
    }
    forall k | 0 <= k < |inc| ensures inc[k].end == id {
      FilterAt(g.edges, (x: Edge<W>) => x.end == id, k);
    }
  }

  /** (id, v) is listed exactly when an edge joins id and v, in either direction. */
  lemma UnorderedEdgesMembers<NV, W>(g: Graph<NV, W>, id: nat, v: nat)
    ensures UnorderedEdge(id, v) in GetUnorderedEdgesById(g, id) <==> HasEdge(g, id, v) || HasEdge(g, v, id)
  {
    var outs := Map(Outgoing(g, id), (x: Edge<W>) => UnorderedEdge(x.start, x.end));
    var ins := Map(Incoming(g, id), (x: Edge<W>) => UnorderedEdge(x.end, x.start));
    assert GetUnorderedEdgesById(g, id) == outs + ins;
    OutgoingPairs(g, id, v);
    IncomingPairs(g, id, v);
  }

  lemma OutgoingPairs<NV, W>(g: Graph<NV, W>, id: nat, v: nat)
    ensures UnorderedEdge(id, v) in Map(Outgoing(g, id), (x: Edge<W>) => UnorderedEdge(x.start, x.end))
      <==> HasEdge(g, id, v)
  {
    var out := Outgoing(g, id);
    var outs := Map(out, (x: Edge<W>) => UnorderedEdge(x.start, x.end));
    var keep := (x: Edge<W>) => x.start == id;
    if UnorderedEdge(id, v) in outs {
      var j :| 0 <= j < |outs| && outs[j] == UnorderedEdge(id, v);
      FilterAt(g.edges, keep, j);
      var k :| 0 <= k < |g.edges| && g.edges[k] == out[j];
      assert g.edges[k].start == id && g.edges[k].end == v;
    }
    if HasEdge(g, id, v) {
      var k :| 0 <= k < |g.edges| && g.edges[k].start == id && g.edges[k].end == v;
      FilterIn(g.edges, keep, g.edges[k]);
      var j :| 0 <= j < |out| && out[j] == g.edges[k];
      assert outs[j] == UnorderedEdge(id, v);
    }
  }

  lemma IncomingPairs<NV, W>(g: Graph<NV, W>, id: nat, v: nat)
    ensures UnorderedEdge(id, v) in Map(Incoming(g, id), (x: Edge<W>) => UnorderedEdge(x.end, x.start))
      <==> HasEdge(g, v, id)
  {
    var inc := Incoming(g, id);
    var ins := Map(inc, (x: Edge<W>) => UnorderedEdge(x.end, x.start));
    var keep := (x: Edge<W>) => x.end == id;
    if UnorderedEdge(id, v) in ins {
      var j :| 0 <= j < |ins| && ins[j] == UnorderedEdge(id, v);
      FilterAt(g.edges, keep, j);
      var k :| 0 <= k < |g.edges| && g.edges[k] == inc[j];
      assert g.edges[k].start == v && g.edges[k].end == id;
    }
    if HasEdge(g, v, id) {
      var k :| 0 <= k < |g.edges| && g.edges[k].start == v && g.edges[k].end == id;
      FilterIn(g.edges, keep, g.edges[k]);
      var j :| 0 <= j < |inc| && inc[j] == g.edges[k];
      assert ins[j] == UnorderedEdge(id, v);
    }
  }

  /**
   * Weights follow edge-insertion order: a new edge's weight is appended to
   * its start node's weights, and every other node's weights are unchanged.
   */
  lemma WeightsAfterAddEdge<NV, W>(g: Graph<NV, W>, s: nat, e: nat, w: W, id: int)
    ensures GetNodeWeightsById(g.(edges := g.edges + [Edge(s, e, w)]), id)
      == GetNodeWeightsById(g, id) + (if id == s then [w] else [])
  {
    var g' := g.(edges := g.edges + [Edge(s, e, w)]);
    var keep := (x: Edge<W>) => x.start == id;
    FilterConcat(g.edges, [Edge(s, e, w)], keep);
    MapConcat(Outgoing(g, id), Filter([Edge(s, e, w)], keep), (x: Edge<W>) => x.weight);
  }
}
