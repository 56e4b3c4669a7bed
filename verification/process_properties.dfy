/**
 * Properties of `Process` that relate several operations: how adding steps
 * and relations changes the available commands, what the gates answer when
 * no operator is registered, and that command existence is a whole-graph
 * question.
 */
module ProcessProperties {
  import opened Wrappers
  import opened Common
  import opened Seqs
  import opened Graph
  import opened Container
  import opened StepOperators
  import opened Behaviours
  import opened Process

  /** The available commands of a known status are those leaving its first step. */
  lemma AvailableIsCommandsFrom(p: Process, s: string)
    requires Inv(p) && HasStatus(p, s)
    ensures GetAvailableStatusCommands(p, s) == Success(CommandsFrom(p, FirstWithStatus(p, s).value))
  {
    SearchNodesFirst(p.graph, StatusIs(s));
  }

  /**
   * A new relation appends its command to the commands of its `from`
   * status, in insertion order, and leaves every status whose first step
   * is another node as it was.
   */
  lemma AvailableAfterAddRelation(p: Process, from: string, to: string, command: string, s: string)
    requires Inv(p) && AddRelation(p, from, to, command).Success?
    requires HasStatus(p, s)
    ensures var p' := AddRelation(p, from, to, command).value;
      && GetAvailableStatusCommands(p', s).Success?
      && GetAvailableStatusCommands(p', s).value
         == GetAvailableStatusCommands(p, s).value + (if FirstWithStatus(p, s) == FirstWithStatus(p, from) then [command] else [])
  {
    var fi, ti := FirstWithStatus(p, from).value, FirstWithStatus(p, to).value;
    AvailableAfterEdge(p, fi, ti, command, s);
  }

  /** The same, for the edge `addRelation` appends. */
  lemma AvailableAfterEdge(p: Process, fi: nat, ti: nat, command: string, s: string)
    requires Inv(p) && HasStatus(p, s)
    ensures var p' := p.(graph := p.graph.(edges := p.graph.edges + [Edge(fi, ti, Relation(command))]));
      GetAvailableStatusCommands(p', s)
        == Success(GetAvailableStatusCommands(p, s).value + (if FirstWithStatus(p, s).value == fi then [command] else []))
  {
    var p' := p.(graph := p.graph.(edges := p.graph.edges + [Edge(fi, ti, Relation(command))]));
    var id := FirstWithStatus(p, s).value;
    assert p'.graph.nodes == p.graph.nodes;
    assert FirstWithStatus(p', s) == FirstWithStatus(p, s);
    AvailableIsCommandsFrom(p, s);
    SearchNodesFirst(p'.graph, StatusIs(s));
    assert GetAvailableStatusCommands(p', s) == Success(CommandsFrom(p', id));
    WeightsAfterAddEdge(p.graph, fi, ti, Relation(command), id);
    var extra := if id == fi then [Relation(command)] else [];
    MapConcat(GetNodeWeightsById(p.graph, id), extra, CommandOf);
    assert Map(extra, CommandOf) == if id == fi then [command] else [];
  }

  /** Appending steps does not move the first step of a status already present. */
  lemma FirstWithStatusStable(p: Process, p': Process, s: string)
    requires |p.graph.nodes| <= |p'.graph.nodes| && p'.graph.nodes[..|p.graph.nodes|] == p.graph.nodes
    requires HasStatus(p, s)
    ensures FirstWithStatus(p', s) == FirstWithStatus(p, s)
  {
    var a := FirstWithStatus(p, s).value;
    assert p'.graph.nodes[a] == p.graph.nodes[a];
    var b := FirstWithStatus(p', s).value;
  }

  /**
   * A step with a status not seen before has no commands, and every status
   * already present keeps its commands.
   */
  lemma AvailableAfterAddStep(p: Process, status: string, s: string)
    requires Inv(p)
    ensures var p' := AddStep(p, status).value;
      && (!HasStatus(p, status) ==> GetAvailableStatusCommands(p', status) == Success([]))
      && (HasStatus(p, s) ==> GetAvailableStatusCommands(p', s) == GetAvailableStatusCommands(p, s))
  {
    var p' := AddStep(p, status).value;
    var n := |p.graph.nodes|;
    assert p'.graph.nodes[n].value.status == status;
    assert HasStatus(p', status);
    if !HasStatus(p, status) {
      assert FirstWithStatus(p', status) == Some(n);
      AvailableIsCommandsFrom(p', status);
      assert Outgoing(p'.graph, n) == [] by {
        forall k | 0 <= k < |p.graph.edges| ensures p.graph.edges[k].start != n {
        }
        OutgoingNone(p.graph, n);
      }
    }
    if HasStatus(p, s) {
      assert p'.graph.nodes[..|p.graph.nodes|] == p.graph.nodes;
      FirstWithStatusStable(p, p', s);
      AvailableIsCommandsFrom(p, s);
      AvailableIsCommandsFrom(p', s);
      assert GetNodeWeightsById(p'.graph, FirstWithStatus(p, s).value) == GetNodeWeightsById(p.graph, FirstWithStatus(p, s).value);
    }
  }

  /** No edge starts at `id`, so none leaves it. */
  lemma OutgoingNone<NV, W>(g: Graph<NV, W>, id: int)
    requires forall k :: 0 <= k < |g.edges| ==> g.edges[k].start != id
    ensures Outgoing(g, id) == []
  {
    if |Outgoing(g, id)| > 0 {
      FilterAt(g.edges, (x: Edge<W>) => x.start == id, 0);
    }
  }

  /**
   * Duplicate statuses are accepted: a second `addStep` with the same status
   * adds another node, and lookups by status keep finding the first one.
   */
  lemma DuplicateStatusAccepted(p: Process, status: string)
    requires Inv(p)
    ensures var p2 := AddStep(AddStep(p, status).value, status);
      && p2.Success?
      && |p2.value.graph.nodes| == |p.graph.nodes| + 2
      && p2.value.graph.nodes[|p.graph.nodes|].value.status == status
      && p2.value.graph.nodes[|p.graph.nodes| + 1].value.status == status
      && FirstWithStatus(p2.value, status).value <= |p.graph.nodes|
  {
    var p1 := AddStep(p, status).value;
    var p2 := AddStep(p1, status).value;
    assert p2.graph.nodes[|p.graph.nodes|] == p1.graph.nodes[|p.graph.nodes|];
  }

  /**
   * With no operator registered for the task's status, reading is allowed
   * and the update check passes, but the update itself is refused.
   */
  lemma GatesWithoutOperators<P, IS>(env: Env<P, IS>, p: Process, w: World<P>, task: Task<P>, payload: P)
    requires p.edition != OldestEdition
    requires UpdateToken(p, task.status) !in w.ctx.singletons && UpdateToken(p, task.status) !in w.ctx.transients
    requires ReadToken(p, task.status) !in w.ctx.singletons && ReadToken(p, task.status) !in w.ctx.transients
    ensures ValidateReadOperation(env, p, w, task) == (w, Success(Valid))
    ensures ValidateUpdateOperation(env, p, w, task) == (w, Valid)
    ensures UpdateTask(env, p, w, task, payload) == (w, Failure(UpdateMissing(p.edition, task.status)))
  {
  }

  /**
   * Registering only an update operator for a status leaves reads of that
   * status ungated: the read token is a different token.
   */
  lemma UpdateOperatorDoesNotGateReads<P, IS>(env: Env<P, IS>, p: Process, w: World<P>, task: Task<P>, op: ClassId)
    requires p.edition != OldestEdition && w.ctx.lineage == LineageOf(p.edition)
    requires ReadToken(p, task.status) !in w.ctx.singletons && ReadToken(p, task.status) !in w.ctx.transients
    requires AddStepOperators(w.ctx, StepClass("step", Some(StepMeta(task.processName, task.status, Some(op), None)))).Success?
    ensures var c' := AddStepOperators(w.ctx, StepClass("step", Some(StepMeta(task.processName, task.status, Some(op), None)))).value;
      ValidateReadOperation(env, p, w.(ctx := c'), task) == (w.(ctx := c'), Success(Valid))
  {
    UpdateIsNeverRead(w.ctx.lineage, task.status, task.status);
  }

  /**
   * Command existence is asked of the whole graph: a command that leaves
   * some step passes the check even for a task whose status does not offer
   * it, and the action's validator then answers.
   */
  lemma CommandCheckIgnoresStatus<P, IS>(env: Env<P, IS>, p: Process, w: World<P>, from: string, command: string, task: Task<P>)
    requires Inv(p) && HasStatus(p, from)
    requires command in GetAvailableStatusCommands(p, from).value
    ensures ValidateCommand(env, p, w, command, task).1 != Failure(CommandMissing(p.edition, command))
  {
    var id := FirstWithStatus(p, from).value;
    var cs := GetAvailableStatusCommands(p, from).value;
    var k :| 0 <= k < |cs| && cs[k] == command;
    var e := Outgoing(p.graph, id)[k];
    FilterAt(p.graph.edges, (x: Edge<Relation>) => x.start == id, k);
    var j :| 0 <= j < |p.graph.edges| && p.graph.edges[j] == e;
    assert p.graph.edges[j].weight.command == command;
  }
}
