/**
 * The process-builder operators of both lineages (identical but for the
 * container method `setInstance`, which is `setTransient`) and
 * `ProcessBuilder.build`: the factory's process, then every piped
 * operator once, in order.
 */
module ProcessBuilder {
  import opened Wrappers
  import opened Common
  import opened Graph
  import opened Container
  import opened Pipeline
  import opened Behaviours
  import opened Process

  /** One `[from, to, command]` triple of `addRelations`. */
  datatype RelationSpec = RelationSpec(from: string, to: string, command: string)

  // ---- context operators ----

  /** `addAction(command, type)`: a transient under the command. */
  function AddAction(command: string, cls: ClassId): Operator<Context> {
    c => SetTransient(c, Named(command), Some(cls))
  }

  /** `addInitialAction(type)`: a transient under `INITIAL_ACTION_COMMAND`. */
  function AddInitialAction(cls: ClassId): Operator<Context> {
    c => SetTransient(c, Named(InitialActionCommand), Some(cls))
  }

  /**
   * What `addActions(...actions)` does to a context: each pair registered
   * in turn; a command already registered (before, or earlier in the list)
   * aborts with TYPE_EXISTS_ERROR.
   */
  function AddActionsTo(c: Context, actions: seq<(string, ClassId)>): (r: Result<Context, Error>)
    ensures r.Success? ==>
      && r.value.singletons == c.singletons && r.value.cache == c.cache && r.value.nextId == c.nextId && r.value.lineage == c.lineage
      && r.value.transients.Keys == c.transients.Keys + (set k | 0 <= k < |actions| :: Named(actions[k].0))
      && (forall k :: 0 <= k < |actions| ==> r.value.transients[Named(actions[k].0)] == actions[k].1)
      && (forall t :: t in c.transients ==> r.value.transients[t] == c.transients[t])
    ensures r.Success? <==> (forall k :: 0 <= k < |actions| ==> Named(actions[k].0) !in c.transients)
                            && (forall i, j :: 0 <= i < j < |actions| ==> actions[i].0 != actions[j].0)
    ensures r.Failure? ==> r.error == TypeExists
    decreases |actions|
  {
    if |actions| == 0 then Success(c)
    else
      var c1 :- SetTransient(c, Named(actions[0].0), Some(actions[0].1));
      var r := AddActionsTo(c1, actions[1..]);
      ActionsStep(c, actions, c1, r);
      r
  }

  /** What `AddActionsTo(c, actions)` promises about its result `r`. */
  ghost predicate ActionsAdded(c: Context, actions: seq<(string, ClassId)>, r: Result<Context, Error>) {
    ActionsKeyed(c, actions, r) && ActionsMapped(c, actions, r) && ActionsAccepted(c, actions, r)
  }

  /** Only the transients change, and they gain exactly the actions' tokens. */
  ghost predicate ActionsKeyed(c: Context, actions: seq<(string, ClassId)>, r: Result<Context, Error>) {
    r.Success? ==>
      && r.value.singletons == c.singletons && r.value.cache == c.cache && r.value.nextId == c.nextId && r.value.lineage == c.lineage
      && r.value.transients.Keys == c.transients.Keys + (set k | 0 <= k < |actions| :: Named(actions[k].0))
  }

  /** Each action's token answers its class, and the old transients are kept. */
  ghost predicate ActionsMapped(c: Context, actions: seq<(string, ClassId)>, r: Result<Context, Error>) {
    r.Success? ==>
      && r.value.transients.Keys == c.transients.Keys + (set k | 0 <= k < |actions| :: Named(actions[k].0))
      && (forall k :: 0 <= k < |actions| ==> r.value.transients[Named(actions[k].0)] == actions[k].1)
      && (forall t :: t in c.transients ==> r.value.transients[t] == c.transients[t])
  }

  /** Success exactly when every token is new and distinct; otherwise TYPE_EXISTS_ERROR. */
  ghost predicate ActionsAccepted(c: Context, actions: seq<(string, ClassId)>, r: Result<Context, Error>) {
    && (r.Success? <==> (forall k :: 0 <= k < |actions| ==> Named(actions[k].0) !in c.transients)
                        && (forall i, j :: 0 <= i < j < |actions| ==> actions[i].0 != actions[j].0))
    && (r.Failure? ==> r.error == TypeExists)
  }

  /** Registering the first action, then the rest, keeps the promise for the whole list. */
  lemma ActionsStep(c: Context, actions: seq<(string, ClassId)>, c1: Context, r: Result<Context, Error>)
    requires |actions| > 0 && SetTransient(c, Named(actions[0].0), Some(actions[0].1)) == Success(c1)
    requires ActionsAdded(c1, actions[1..], r)
    ensures ActionsAdded(c, actions, r)
  {
    ActionsStepKeyed(c, actions, c1, r);
    ActionsStepMapped(c, actions, c1, r);
    ActionsStepAccepted(c, actions, c1, r);
  }

  lemma ActionsStepKeyed(c: Context, actions: seq<(string, ClassId)>, c1: Context, r: Result<Context, Error>)
    requires |actions| > 0 && SetTransient(c, Named(actions[0].0), Some(actions[0].1)) == Success(c1)
    requires ActionsKeyed(c1, actions[1..], r)
    ensures ActionsKeyed(c, actions, r)
  {
    if r.Success? {
      SetOfTail(actions);
    }
  }

  lemma ActionsStepMapped(c: Context, actions: seq<(string, ClassId)>, c1: Context, r: Result<Context, Error>)
    requires |actions| > 0 && SetTransient(c, Named(actions[0].0), Some(actions[0].1)) == Success(c1)
    requires ActionsMapped(c1, actions[1..], r)
    ensures ActionsMapped(c, actions, r)
  {
    assert forall k :: 0 < k < |actions| ==> actions[k] == actions[1..][k - 1];
    if r.Success? {
      SetOfTail(actions);
    }
  }

  lemma ActionsStepAccepted(c: Context, actions: seq<(string, ClassId)>, c1: Context, r: Result<Context, Error>)
    requires |actions| > 0 && SetTransient(c, Named(actions[0].0), Some(actions[0].1)) == Success(c1)
    requires ActionsAccepted(c1, actions[1..], r)
    ensures ActionsAccepted(c, actions, r)
  {
    assert forall k :: 0 < k < |actions| ==> actions[k] == actions[1..][k - 1];
  }

  lemma SetOfTail(actions: seq<(string, ClassId)>)
    requires |actions| > 0
    ensures (set k | 0 <= k < |actions| :: Named(actions[k].0))
      == {Named(actions[0].0)} + (set k | 0 <= k < |actions[1..]| :: Named(actions[1..][k].0))
  {
    var a := set k | 0 <= k < |actions| :: Named(actions[k].0);
    var b := {Named(actions[0].0)} + (set k | 0 <= k < |actions[1..]| :: Named(actions[1..][k].0));
    forall t | t in a ensures t in b {
      var k :| 0 <= k < |actions| && t == Named(actions[k].0);
      if k > 0 {
        assert t == Named(actions[1..][k - 1].0);
      }
    }
    forall t | t in b ensures t in a {
      if t != Named(actions[0].0) {
        var k :| 0 <= k < |actions[1..]| && t == Named(actions[1..][k].0);
        assert t == Named(actions[k + 1].0);
      }
    }
  }

  function AddActions(actions: seq<(string, ClassId)>): Operator<Context> {
    c => AddActionsTo(c, actions)
  }

  // ---- process operators ----

  /** `addStep(status)`. */
  function AddStepOp(status: string): Operator<Process> {
    p => AddStep(p, status)
  }

  /**
   * What `addSteps(...statuses)` does: `addStep` for each status in turn.
   * Under the invariant none of them can fail.
   */
  function AddStepsTo(p: Process, statuses: seq<string>): (r: Result<Process, Error>)
    ensures Inv(p) ==> r.Success? && Inv(r.value) && r.value.name == p.name && r.value.edition == p.edition
    decreases |statuses|
  {
    if |statuses| == 0 then Success(p)
    else
      var p1 :- AddStep(p, statuses[0]);
      AddStepsTo(p1, statuses[1..])
  }

  /**
   * `addSteps` appends one step per status, in argument order: the ids
   * continue densely from the steps already there, and no relation changes.
   */
  lemma {:induction false} AddStepsAppends(p: Process, statuses: seq<string>)
    requires Inv(p)
    ensures var q := AddStepsTo(p, statuses).value;
      && q.graph.edges == p.graph.edges
      && |q.graph.nodes| == |p.graph.nodes| + |statuses|
      && q.graph.nodes[..|p.graph.nodes|] == p.graph.nodes
      && forall k :: 0 <= k < |statuses| ==>
           q.graph.nodes[|p.graph.nodes| + k] == Node(|p.graph.nodes| + k, Step(|p.graph.nodes| + k, p.name, statuses[k]))
    decreases |statuses|
  {
    if |statuses| > 0 {
      var n := |p.graph.nodes|;
      var p1 := AddStep(p, statuses[0]).value;
      assert Inv(p1) && p1.graph.nodes == p.graph.nodes + [Node(n, Step(n, p.name, statuses[0]))];
      assert AddStepsTo(p, statuses) == AddStepsTo(p1, statuses[1..]);
      AddStepsAppends(p1, statuses[1..]);
      StepsAfterFirst(p, statuses, p1, AddStepsTo(p, statuses).value);
    }
  }

  /** The nodes after the first step and the rest of `addSteps`, seen from the start. */
  lemma StepsAfterFirst(p: Process, statuses: seq<string>, p1: Process, q: Process)
    requires |statuses| > 0 && p1.name == p.name
    requires p1.graph.nodes == p.graph.nodes + [Node(|p.graph.nodes|, Step(|p.graph.nodes|, p.name, statuses[0]))]
    requires |q.graph.nodes| == |p1.graph.nodes| + |statuses[1..]| && q.graph.nodes[..|p1.graph.nodes|] == p1.graph.nodes
    requires forall k :: 0 <= k < |statuses[1..]| ==>
      q.graph.nodes[|p1.graph.nodes| + k] == Node(|p1.graph.nodes| + k, Step(|p1.graph.nodes| + k, p1.name, statuses[1..][k]))
    ensures q.graph.nodes[..|p.graph.nodes|] == p.graph.nodes
    ensures forall k :: 0 <= k < |statuses| ==>
      q.graph.nodes[|p.graph.nodes| + k] == Node(|p.graph.nodes| + k, Step(|p.graph.nodes| + k, p.name, statuses[k]))
  {
    var n := |p.graph.nodes|;
    assert q.graph.nodes[..n] == p1.graph.nodes[..n];
    forall k | 0 <= k < |statuses|
      ensures q.graph.nodes[n + k] == Node(n + k, Step(n + k, p.name, statuses[k]))
    {
      if k == 0 {
        assert q.graph.nodes[n] == q.graph.nodes[..n + 1][n];
      } else {
        assert statuses[k] == statuses[1..][k - 1];
        assert n + k == (n + 1) + (k - 1);
      }
    }
  }

  function AddSteps(statuses: seq<string>): Operator<Process> {
    p => AddStepsTo(p, statuses)
  }

  /** `addRelation(from, to, command)`. */
  function AddRelationOp(from: string, to: string, command: string): Operator<Process> {
    p => AddRelation(p, from, to, command)
  }

  /**
   * What `addRelations(...triples)` does: `addRelation` for each triple in
   * turn; the first failing triple aborts, so a `from` status with no step
   * in the first triple is reported before anything else happens.
   */
  function AddRelationsTo(p: Process, rs: seq<RelationSpec>): (r: Result<Process, Error>)
    ensures Inv(p) && r.Success? ==> Inv(r.value) && r.value.name == p.name && r.value.edition == p.edition
    ensures |rs| > 0 && !HasStatus(p, rs[0].from) ==> r == Failure(EndpointMissing(p.edition, rs[0].from))
    decreases |rs|
  {
    if |rs| == 0 then Success(p)
    else
      var p1 :- AddRelation(p, rs[0].from, rs[0].to, rs[0].command);
      AddRelationsTo(p1, rs[1..])
  }

  /** One successful `addRelation` keeps the steps and appends one relation labelled with its command. */
  lemma AddRelationAppendsOne(p: Process, from: string, to: string, command: string)
    requires Inv(p) && AddRelation(p, from, to, command).Success?
    ensures var q := AddRelation(p, from, to, command).value;
      && Inv(q)
      && q.graph.nodes == p.graph.nodes
      && |q.graph.edges| == |p.graph.edges| + 1
      && q.graph.edges[..|p.graph.edges|] == p.graph.edges
      && q.graph.edges[|p.graph.edges|].weight == Relation(command)
  {
    assert HasStatus(p, from) && HasStatus(p, to);
  }

  /** The relation each triple asks for, in order. */
  function Labels(rs: seq<RelationSpec>): (ls: seq<Relation>)
    ensures |ls| == |rs|
  {
    if |rs| == 0 then [] else [Relation(rs[0].command)] + Labels(rs[1..])
  }

  /** The relations a run of edges carries, in order. */
  function WeightsOf(es: seq<Edge<Relation>>): (ws: seq<Relation>)
    ensures |ws| == |es|
  {
    if |es| == 0 then [] else [es[0].weight] + WeightsOf(es[1..])
  }

  /**
   * A successful `addRelations` keeps the steps and the relations already
   * there, and appends one relation per triple, in order, each labelled with
   * its triple's command.
   */
  lemma {:induction false} AddRelationsAppends(p: Process, rs: seq<RelationSpec>)
    requires Inv(p) && AddRelationsTo(p, rs).Success?
    ensures var q := AddRelationsTo(p, rs).value;
      && q.graph.nodes == p.graph.nodes
      && |p.graph.edges| <= |q.graph.edges|
      && q.graph.edges[..|p.graph.edges|] == p.graph.edges
      && WeightsOf(q.graph.edges[|p.graph.edges|..]) == Labels(rs)
    decreases |rs|
  {
    var m := |p.graph.edges|;
    if |rs| == 0 {
      assert p.graph.edges[m..] == [];
    } else {
      var p1 := AddRelation(p, rs[0].from, rs[0].to, rs[0].command).value;
      AddRelationAppendsOne(p, rs[0].from, rs[0].to, rs[0].command);
      AddRelationsAppends(p1, rs[1..]);
      var q := AddRelationsTo(p1, rs[1..]).value;
      assert AddRelationsTo(p, rs).value == q;
      var tail := q.graph.edges[m..];
      assert q.graph.edges[..m] == p1.graph.edges[..m] by {
        assert q.graph.edges[..m + 1] == p1.graph.edges;
      }
      assert tail[0] == p1.graph.edges[m];
      assert tail[1..] == q.graph.edges[m + 1..];
    }
  }

  /** Every triple names two statuses that have steps. */
  ghost predicate Joinable(p: Process, rs: seq<RelationSpec>) {
    forall k :: 0 <= k < |rs| ==> HasStatus(p, rs[k].from) && HasStatus(p, rs[k].to)
  }

  /** The node a status resolves to: its first step. */
  function At(p: Process, s: string): (i: nat)
    requires HasStatus(p, s)
    ensures i < |p.graph.nodes| && p.graph.nodes[i].value.status == s
  {
    FirstWithStatus(p, s).value
  }

  /** No two triples name the same ordered pair of statuses, whatever their commands. */
  ghost predicate PairsDistinct(rs: seq<RelationSpec>) {
    forall i, j :: 0 <= i < j < |rs| ==> (rs[i].from, rs[i].to) != (rs[j].from, rs[j].to)
  }

  /** No triple joins two steps already joined, and the triples' pairs are distinct. */
  ghost predicate FreshPairs(p: Process, rs: seq<RelationSpec>)
    requires Joinable(p, rs)
  {
    && (forall k :: 0 <= k < |rs| ==> !HasEdge(p.graph, At(p, rs[k].from), At(p, rs[k].to)))
    && PairsDistinct(rs)
  }

  /**
   * With every endpoint present, `addRelations` succeeds exactly when its
   * pairs are fresh; otherwise the edge check is what stops it.
   */
  lemma AddRelationsSucceeds(p: Process, rs: seq<RelationSpec>)
    requires Inv(p) && Joinable(p, rs)
    ensures AddRelationsTo(p, rs).Success? <==> FreshPairs(p, rs)
    ensures AddRelationsTo(p, rs).Failure? ==> AddRelationsTo(p, rs).error == EdgeHasBeenAdded
  {
    if FreshPairs(p, rs) {
      FreshPairsSucceed(p, rs);
    }
    SuccessNeedsFreshPairs(p, rs);
  }

  /** What the first of the triples leaves behind when it succeeds. */
  lemma FirstRelation(p: Process, rs: seq<RelationSpec>)
    requires Inv(p) && Joinable(p, rs) && |rs| > 0
    requires AddRelation(p, rs[0].from, rs[0].to, rs[0].command).Success?
    ensures var p1 := AddRelation(p, rs[0].from, rs[0].to, rs[0].command).value;
      && Inv(p1) && Joinable(p1, rs[1..])
      && (forall s :: HasStatus(p1, s) <==> HasStatus(p, s))
      && (forall s :: HasStatus(p, s) ==> At(p1, s) == At(p, s))
      && (forall a, b :: HasEdge(p1.graph, a, b) <==> HasEdge(p.graph, a, b) || (a == At(p, rs[0].from) && b == At(p, rs[0].to)))
      && !HasEdge(p.graph, At(p, rs[0].from), At(p, rs[0].to))
      && AddRelationsTo(p, rs) == AddRelationsTo(p1, rs[1..])
  {
    var r0 := rs[0];
    var fi, ti := At(p, r0.from), At(p, r0.to);
    var p1 := AddRelation(p, r0.from, r0.to, r0.command).value;
    assert p1.graph == p.graph.(edges := p.graph.edges + [Edge(fi, ti, Relation(r0.command))]);
    assert forall s :: HasStatus(p1, s) <==> HasStatus(p, s);
    forall k | 0 <= k < |rs[1..]| ensures HasStatus(p1, rs[1..][k].from) && HasStatus(p1, rs[1..][k].to) {
      assert rs[1..][k] == rs[k + 1];
    }
    EdgesAfterOne(p, p1, fi, ti, r0.command);
  }

  lemma {:induction false} FreshPairsSucceed(p: Process, rs: seq<RelationSpec>)
    requires Inv(p) && Joinable(p, rs) && FreshPairs(p, rs)
    ensures AddRelationsTo(p, rs).Success?
    decreases |rs|
  {
    if |rs| > 0 {
      var r0 := rs[0];
      assert !HasEdge(p.graph, At(p, r0.from), At(p, r0.to));
      var p1 := AddRelation(p, r0.from, r0.to, r0.command).value;
      FirstRelation(p, rs);
      forall k | 0 <= k < |rs[1..]|
        ensures !HasEdge(p1.graph, At(p1, rs[1..][k].from), At(p1, rs[1..][k].to))
      {
        var r := rs[k + 1];
        assert rs[1..][k] == r;
        assert (r.from, r.to) != (r0.from, r0.to);
      }
      forall i, j | 0 <= i < j < |rs[1..]|
        ensures (rs[1..][i].from, rs[1..][i].to) != (rs[1..][j].from, rs[1..][j].to)
      {
        assert rs[1..][i] == rs[i + 1] && rs[1..][j] == rs[j + 1];
      }
      FreshPairsSucceed(p1, rs[1..]);
    }
  }

  lemma {:induction false} SuccessNeedsFreshPairs(p: Process, rs: seq<RelationSpec>)
    requires Inv(p) && Joinable(p, rs)
    ensures AddRelationsTo(p, rs).Success? ==> FreshPairs(p, rs)
    ensures AddRelationsTo(p, rs).Failure? ==> AddRelationsTo(p, rs).error == EdgeHasBeenAdded
    decreases |rs|
  {
    if |rs| > 0 {
      var r0 := rs[0];
      var first := AddRelation(p, r0.from, r0.to, r0.command);
      if first.Success? {
        var p1 := first.value;
        FirstRelation(p, rs);
        SuccessNeedsFreshPairs(p1, rs[1..]);
        if AddRelationsTo(p, rs).Success? {
          FreshFromRest(p, rs);
        }
      }
    }
  }

  /** Fresh pairs after a successful first triple, with the first, are fresh from the start. */
  lemma FreshFromRest(p: Process, rs: seq<RelationSpec>)
    requires Inv(p) && Joinable(p, rs) && |rs| > 0
    requires AddRelation(p, rs[0].from, rs[0].to, rs[0].command).Success?
    requires var p1 := AddRelation(p, rs[0].from, rs[0].to, rs[0].command).value;
      Inv(p1) && Joinable(p1, rs[1..]) && FreshPairs(p1, rs[1..])
    ensures FreshPairs(p, rs)
  {
    FreshEdgesFromRest(p, rs);
    FreshDistinctFromRest(p, rs);
  }

  /** No triple's pair is an edge of `p`: the first is fresh by success, the rest stay fresh. */
  lemma FreshEdgesFromRest(p: Process, rs: seq<RelationSpec>)
    requires Inv(p) && Joinable(p, rs) && |rs| > 0
    requires AddRelation(p, rs[0].from, rs[0].to, rs[0].command).Success?
    requires var p1 := AddRelation(p, rs[0].from, rs[0].to, rs[0].command).value;
      Inv(p1) && Joinable(p1, rs[1..]) && FreshPairs(p1, rs[1..])
    ensures forall k :: 0 <= k < |rs| ==> !HasEdge(p.graph, At(p, rs[k].from), At(p, rs[k].to))
  {
    forall k | 0 <= k < |rs| ensures !HasEdge(p.graph, At(p, rs[k].from), At(p, rs[k].to)) {
      if k > 0 {
        assert rs[1..][k - 1] == rs[k];
        FreshEdgeKept(p, rs[0], rs[k]);
      }
    }
  }

  /** A pair that is no edge after one successful `addRelation` was no edge before it. */
  lemma FreshEdgeKept(p: Process, r0: RelationSpec, r: RelationSpec)
    requires Inv(p) && HasStatus(p, r.from) && HasStatus(p, r.to)
    requires AddRelation(p, r0.from, r0.to, r0.command).Success?
    requires var p1 := AddRelation(p, r0.from, r0.to, r0.command).value;
      Inv(p1) && HasStatus(p1, r.from) && HasStatus(p1, r.to) && !HasEdge(p1.graph, At(p1, r.from), At(p1, r.to))
    ensures !HasEdge(p.graph, At(p, r.from), At(p, r.to))
  {
    OneRelationKeeps(p, r0, r.from, r.to);
  }

  /** One successful `addRelation` keeps where statuses resolve and every edge between them. */
  lemma OneRelationKeeps(p: Process, r0: RelationSpec, f: string, t: string)
    requires Inv(p) && AddRelation(p, r0.from, r0.to, r0.command).Success? && HasStatus(p, f) && HasStatus(p, t)
    ensures var p1 := AddRelation(p, r0.from, r0.to, r0.command).value;
      && HasStatus(p1, f) && HasStatus(p1, t) && At(p1, f) == At(p, f) && At(p1, t) == At(p, t)
      && (HasEdge(p.graph, At(p, f), At(p, t)) ==> HasEdge(p1.graph, At(p, f), At(p, t)))
  {
    var fi, ti := At(p, r0.from), At(p, r0.to);
    var p1 := AddRelation(p, r0.from, r0.to, r0.command).value;
    assert p1.graph == p.graph.(edges := p.graph.edges + [Edge(fi, ti, Relation(r0.command))]);
    var a, b := At(p, f), At(p, t);
    if HasEdge(p.graph, a, b) {
      var j :| 0 <= j < |p.graph.edges| && p.graph.edges[j].start == a && p.graph.edges[j].end == b;
      assert p1.graph.edges[j] == p.graph.edges[j];
    }
  }

  /** No later triple repeats the first pair, which after the first step is an edge. */
  lemma FreshDistinctFromRest(p: Process, rs: seq<RelationSpec>)
    requires Inv(p) && Joinable(p, rs) && |rs| > 0
    requires AddRelation(p, rs[0].from, rs[0].to, rs[0].command).Success?
    requires var p1 := AddRelation(p, rs[0].from, rs[0].to, rs[0].command).value;
      Inv(p1) && Joinable(p1, rs[1..]) && FreshPairs(p1, rs[1..])
    ensures PairsDistinct(rs)
  {
    var p1 := AddRelation(p, rs[0].from, rs[0].to, rs[0].command).value;
    FirstRelation(p, rs);
    forall i, j | 0 <= i < j < |rs| ensures (rs[i].from, rs[i].to) != (rs[j].from, rs[j].to) {
      assert rs[1..][j - 1] == rs[j];
      if i == 0 {
        assert !HasEdge(p1.graph, At(p1, rs[j].from), At(p1, rs[j].to));
      } else {
        assert rs[1..][i - 1] == rs[i];
      }
    }
  }

  /**
   * On a process without relations, `addRelations` over present endpoints
   * succeeds exactly when no two triples name the same ordered pair.
   */
  lemma NoRelationsFresh(p: Process, rs: seq<RelationSpec>)
    requires Inv(p) && Joinable(p, rs) && |p.graph.edges| == 0
    ensures AddRelationsTo(p, rs).Success? <==> PairsDistinct(rs)
    ensures AddRelationsTo(p, rs).Failure? ==> AddRelationsTo(p, rs).error == EdgeHasBeenAdded
  {
    assert forall a, b :: !HasEdge(p.graph, a, b);
    AddRelationsSucceeds(p, rs);
  }

  /** The edges after one `addRelation`: the old ones, plus the new pair. */
  lemma EdgesAfterOne(p: Process, p1: Process, fi: nat, ti: nat, command: string)
    requires p1.graph == p.graph.(edges := p.graph.edges + [Edge(fi, ti, Relation(command))])
    ensures forall a, b :: HasEdge(p1.graph, a, b) <==> HasEdge(p.graph, a, b) || (a == fi && b == ti)
  {
    forall a, b ensures HasEdge(p1.graph, a, b) <==> HasEdge(p.graph, a, b) || (a == fi && b == ti) {
      if HasEdge(p.graph, a, b) {
        var k :| 0 <= k < |p.graph.edges| && p.graph.edges[k].start == a && p.graph.edges[k].end == b;
        assert p1.graph.edges[k] == p.graph.edges[k];
      }
      if a == fi && b == ti {
        assert p1.graph.edges[|p.graph.edges|] == Edge(fi, ti, Relation(command));
      }
      if HasEdge(p1.graph, a, b) {
        var k :| 0 <= k < |p1.graph.edges| && p1.graph.edges[k].start == a && p1.graph.edges[k].end == b;
        if k < |p.graph.edges| {
          assert p.graph.edges[k] == p1.graph.edges[k];
        }
      }
    }
  }

  function AddRelations(rs: seq<RelationSpec>): Operator<Process> {
    p => AddRelationsTo(p, rs)
  }

  // ---- build ----

  /**
   * `build(getProcessFactory())`: the factory builds the process against
   * the builder's container (the older editions resolving `ActionContext`),
   * then the piped operators run on it.
   */
  function BuildProcess<P, IS>(env: Env<P, IS>, b: Builder<Process>, e: Edition, name: ProcessName, w: World<P>): (r: (World<P>, Result<Process, Error>))
    ensures r.0 == NewProcess(env, e, name, w).0
    ensures NewProcess(env, e, name, w).1.Failure? ==> r.1 == NewProcess(env, e, name, w).1
    ensures NewProcess(env, e, name, w).1.Success? ==> r.1 == Build(b, Process(e, name, Empty()))
  {
    var (w1, made) := NewProcess(env, e, name, w);
    if made.Failure? then (w1, made) else (w1, Build(b, made.value))
  }

  /** With nothing piped, the built process has no step, no relation, and the given name. */
  lemma EmptyProcessBuild<P, IS>(env: Env<P, IS>, name: ProcessName, w: World<P>)
    ensures var (w1, r) := BuildProcess(env, Create(), CoreEdition, name, w);
      && w1 == w && r.Success?
      && |r.value.graph.nodes| == 0 && |r.value.graph.edges| == 0 && r.value.name == name
  {
  }

  /**
   * Steps piped in order get ids 0, 1, … in that order, and a relation
   * between the first two is the edge {0 → 1} with its command.
   */
  lemma StepsThenRelation(name: ProcessName, e: Edition, a: string, b: string, command: string)
    requires a != b
    ensures var built := Build(Pipe(Create(), [AddSteps([a, b]), AddRelations([RelationSpec(a, b, command)])]), Process(e, name, Empty()));
      && built.Success?
      && built.value.graph.nodes == [Node(0, Step(0, name, a)), Node(1, Step(1, name, b))]
      && built.value.graph.edges == [Edge(0, 1, Relation(command))]
  {
    var p0: Process := Process(e, name, Empty());
    AddStepsAppends(p0, [a, b]);
    var p1 := AddStepsTo(p0, [a, b]).value;
    assert p1.graph.nodes == [Node(0, Step(0, name, a)), Node(1, Step(1, name, b))];
    assert p1.graph.edges == [];
    assert FirstWithStatus(p1, a) == Some(0);
    assert FirstWithStatus(p1, b) == Some(1);
    assert !HasEdge(p1.graph, 0, 1);
    var p2 := AddRelation(p1, a, b, command);
    assert AddRelationsTo(p1, [RelationSpec(a, b, command)]) == p2 by {
      assert [RelationSpec(a, b, command)][1..] == [];
    }
    assert Pipe(Create(), [AddSteps([a, b]), AddRelations([RelationSpec(a, b, command)])]).operators
      == [AddSteps([a, b]), AddRelations([RelationSpec(a, b, command)])];
    ApplyTwo(p0, AddSteps([a, b]), AddRelations([RelationSpec(a, b, command)]));
  }
}
