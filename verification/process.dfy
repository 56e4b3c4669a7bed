/**
 * `Process`, the state machine: steps (one per status) are graph nodes,
 * relations are edges labelled with a command. Three editions exist:
 * - the current one (packages/core), with exception classes and read/update gates;
 * - the older one (process-manager's process/process.ts), with plain-text
 *   errors, gates under the older tokens, and actions fetched through the
 *   `ActionContext` service;
 * - the oldest one (process-manager's process.ts), with no gates at all.
 */
module Process {
  import opened Wrappers
  import opened Common
  import opened Seqs
  import opened Graph
  import opened Container
  import opened StepOperators
  import opened TaskRepository
  import opened Behaviours

  datatype Edition = CoreEdition | OlderEdition | OldestEdition

  /** A step object. `ref` is its identity: each `addStep` builds a new object. */
  datatype Step = Step(ref: nat, processName: ProcessName, status: string)

  /** `IRelationWeight`: the command an edge carries. */
  datatype Relation = Relation(command: string)

  datatype Process = Process(edition: Edition, name: ProcessName, graph: Graph<Step, Relation>)

  /** The graph compares step objects by identity (`===`), never by status. */
  const SameObject: Equality<Step> := (a: Step, b: Step) => a.ref == b.ref

  /** The class the older editions resolve at construction. */
  const ActionContextClass: ClassId := "ActionContext"

  /** The older editions use the older operator tokens. */
  function LineageOf(e: Edition): (l: Lineage)
    ensures l == Current <==> e == CoreEdition
  {
    if e == CoreEdition then Current else Legacy
  }

  /**
   * What every process satisfies: a well-formed graph without duplicate
   * (start, end) pairs, whose node at position `i` is the `i`-th step object
   * created, belonging to this process.
   */
  ghost predicate Inv(p: Process) {
    && WellFormed(p.graph)
    && EdgesUnique(p.graph)
    && forall i :: 0 <= i < |p.graph.nodes| ==> p.graph.nodes[i].value.ref == i && p.graph.nodes[i].value.processName == p.name
  }

  function StatusIs(s: string): Step -> bool {
    (x: Step) => x.status == s
  }

  function CommandIs(c: string): Relation -> bool {
    (x: Relation) => x.command == c
  }

  /** Some step has status `s`. */
  ghost predicate HasStatus(p: Process, s: string) {
    exists i :: 0 <= i < |p.graph.nodes| && p.graph.nodes[i].value.status == s
  }

  /** Some edge anywhere in the graph carries command `c`. */
  ghost predicate HasCommand(p: Process, c: string) {
    exists k :: 0 <= k < |p.graph.edges| && p.graph.edges[k].weight.command == c
  }

  /** The position of the first step with status `s`: the one every lookup by status finds. */
  function FirstWithStatus(p: Process, s: string): (r: Option<nat>)
    ensures r.Some? <==> HasStatus(p, s)
    ensures r.Some? ==> r.value < |p.graph.nodes| && p.graph.nodes[r.value].value.status == s
    ensures r.Some? ==> forall k :: 0 <= k < r.value ==> p.graph.nodes[k].value.status != s
  {
    FirstNodeWith(p.graph, StatusIs(s))
  }

  // ---- error texts per edition ----

  /** A relation endpoint without a step. */
  function EndpointMissing(e: Edition, s: string): (err: Error)
    ensures e == CoreEdition ==> err == StepNotFound(s)
    ensures e == OlderEdition ==> err == Thrown("Step for status \"" + s + "\" not found")
    ensures e == OldestEdition ==> err == Thrown("\"" + s + "\" status not found")
  {
    match e
    case CoreEdition => StepNotFound(s)
    case OlderEdition => Thrown("Step for status \"" + s + "\" not found")
    case OldestEdition => Thrown("\"" + s + "\" status not found")
  }

  /** A status asked for its commands without a step. */
  function StatusMissing(e: Edition, s: string): (err: Error)
    ensures e == CoreEdition ==> err == StepNotFound(s)
    ensures e != CoreEdition ==> err == Thrown("Step for status \"" + s + "\" not found")
  {
    if e == CoreEdition then StepNotFound(s) else Thrown("Step for status \"" + s + "\" not found")
  }

  /** A command that no edge carries. */
  function CommandMissing(e: Edition, c: string): (err: Error)
    ensures e == CoreEdition ==> err == CommandNotFound(c) && Message(err) == "\"" + c + "\" command not found."
    ensures e != CoreEdition ==> err == Thrown("\"" + c + "\" command not found")
    ensures !ResolutionError(err)
  {
    if e == CoreEdition then CommandNotFound(c) else Thrown("\"" + c + "\" command not found")
  }

  /** The initial action cannot be obtained. */
  function InitialMissing(e: Edition): (err: Error)
    ensures e == CoreEdition ==> err == CommandNotFound("Initial command")
    ensures e != CoreEdition ==> err == Thrown("Initial command not found")
  {
    if e == CoreEdition then CommandNotFound("Initial command") else Thrown("Initial command not found")
  }

  // ---- construction and writing ----

  /**
   * `new Process(processName, context)`: an empty graph. The older editions
   * first resolve `ActionContext`, and fail when it cannot be resolved.
   */
  function NewProcess<P, IS>(env: Env<P, IS>, e: Edition, name: ProcessName, w: World<P>): (r: (World<P>, Result<Process, Error>))
    ensures e == CoreEdition ==> r == (w, Success(Process(e, name, Empty())))
    ensures e != CoreEdition ==> r.0 == ResolveIn(env, w, OfType(ActionContextClass)).0
    ensures e != CoreEdition ==> (r.1.Failure? <==> ResolveIn(env, w, OfType(ActionContextClass)).1.Failure?)
    ensures r.1.Failure? ==> e != CoreEdition && r.1.error == ResolveIn(env, w, OfType(ActionContextClass)).1.error
    ensures r.1.Success? ==> r.1.value == Process(e, name, Empty()) && Inv(r.1.value)
  {
    if e == CoreEdition then (w, Success(Process(e, name, Empty())))
    else
      var (w1, ac) := ResolveIn(env, w, OfType(ActionContextClass));
      if ac.Failure? then (w1, Failure(ac.error)) else (w1, Success(Process(e, name, Empty())))
  }

  /**
   * `addStep(status)`: a new step object, so the graph never finds it
   * already present, even when another step has the same status.
   */
  function AddStep(p: Process, status: string): (r: Result<Process, Error>)
    ensures Inv(p) ==> r.Success?
    ensures Inv(p) ==>
      var n := |p.graph.nodes|;
      && r.value.graph.nodes == p.graph.nodes + [Node(n, Step(n, p.name, status))]
      && r.value.graph.edges == p.graph.edges
      && r.value.name == p.name && r.value.edition == p.edition
      && Inv(r.value)
  {
    var g :- AddNode(p.graph, SameObject, Step(p.graph.nextId, p.name, status));
    Success(p.(graph := g))
  }

  /** Under the invariant, looking a step object up by identity finds its own node. */
  lemma FindByIdentity(p: Process, i: nat)
    requires Inv(p) && i < |p.graph.nodes|
    ensures GetNodeByValue(p.graph, SameObject, p.graph.nodes[i].value) == Some(p.graph.nodes[i])
  {
    var r := GetNodeByValue(p.graph, SameObject, p.graph.nodes[i].value);
    assert SameObject(p.graph.nodes[i].value, p.graph.nodes[i].value);
    var j :| 0 <= j < |p.graph.nodes| && p.graph.nodes[j] == r.value && SameObject(r.value.value, p.graph.nodes[i].value);
  }

  /**
   * `addRelation(from, to, command)`: the first step with status `from` is
   * looked up before the first with status `to`, and the first missing one
   * is reported; then one edge labelled `command` joins them, unless that
   * (start, end) pair is already joined.
   */
  function AddRelation(p: Process, from: string, to: string, command: string): (r: Result<Process, Error>)
    ensures !HasStatus(p, from) ==> r == Failure(EndpointMissing(p.edition, from))
    ensures HasStatus(p, from) && !HasStatus(p, to) ==> r == Failure(EndpointMissing(p.edition, to))
    ensures Inv(p) && HasStatus(p, from) && HasStatus(p, to) ==>
      var fi := FirstWithStatus(p, from).value;
      var ti := FirstWithStatus(p, to).value;
      && (r.Failure? <==> HasEdge(p.graph, fi, ti))
      && (r.Failure? ==> r.error == EdgeHasBeenAdded)
      && (r.Success? ==> r.value == p.(graph := p.graph.(edges := p.graph.edges + [Edge(fi, ti, Relation(command))])))
    ensures Inv(p) && r.Success? ==> Inv(r.value)
  {
    var fromSteps := SearchNodes(p.graph, StatusIs(from));
    SearchNodesFirst(p.graph, StatusIs(from));
    if |fromSteps| == 0 then Failure(EndpointMissing(p.edition, from))
    else
      var toSteps := SearchNodes(p.graph, StatusIs(to));
      SearchNodesFirst(p.graph, StatusIs(to));
      if |toSteps| == 0 then Failure(EndpointMissing(p.edition, to))
      else
        var fi := FirstWithStatus(p, from).value;
        var ti := FirstWithStatus(p, to).value;
        assert Inv(p) ==>
          && fromSteps[0] == p.graph.nodes[fi] && toSteps[0] == p.graph.nodes[ti]
          && GetNodeByValue(p.graph, SameObject, fromSteps[0].value) == Some(p.graph.nodes[fi])
          && GetNodeByValue(p.graph, SameObject, toSteps[0].value) == Some(p.graph.nodes[ti])
          && p.graph.nodes[fi].id == fi && p.graph.nodes[ti].id == ti
        by {
          if Inv(p) {
            FindByIdentity(p, fi);
            FindByIdentity(p, ti);
          }
        }
        var g :- AddEdge(p.graph, SameObject, fromSteps[0].value, toSteps[0].value, Relation(command));
        Success(p.(graph := g))
  }

  // ---- reading ----

  function CommandOf(x: Relation): string {
    x.command
  }

  /** The commands of the edges leaving node `id`, in edge-insertion order. */
  function CommandsFrom(p: Process, id: nat): (cs: seq<string>)
    ensures |cs| == |Outgoing(p.graph, id)|
    ensures forall k :: 0 <= k < |cs| ==> cs[k] == Outgoing(p.graph, id)[k].weight.command
  {
    Map(GetNodeWeightsById(p.graph, id), CommandOf)
  }

  /**
   * `getAvailableStatusCommands(status)`: the commands leaving the first step
   * with that status, in edge-insertion order; an unknown status fails.
   */
  function GetAvailableStatusCommands(p: Process, status: string): (r: Result<seq<string>, Error>)
    ensures r.Failure? <==> !HasStatus(p, status)
    ensures r.Failure? ==> r.error == StatusMissing(p.edition, status)
    ensures r.Success? && Inv(p) ==>
      var id := FirstWithStatus(p, status).value;
      && |r.value| == |Outgoing(p.graph, id)|
      && forall k :: 0 <= k < |r.value| ==> r.value[k] == Outgoing(p.graph, id)[k].weight.command
  {
    var found := SearchNodes(p.graph, StatusIs(status));
    SearchNodesFirst(p.graph, StatusIs(status));
    if |found| == 0 then Failure(StatusMissing(p.edition, status))
    else Success(CommandsFrom(p, found[0].id))
  }

  /** `searchEdges(e => e.command === command)[0]` exists. */
  function CommandExists(p: Process, c: string): (b: bool)
    ensures b <==> HasCommand(p, c)
  {
    SearchEdgesNonEmpty(p.graph, CommandIs(c));
    |SearchEdges(p.graph, CommandIs(c))| > 0
  }

  // ---- dispatch ----

  /**
   * `validateCommand(command, task)`: a command carried by no edge fails
   * (whatever the task's status); otherwise the action registered under the
   * command is resolved, and its `validateTask` answers, or the task is valid.
   */
  function ValidateCommand<P, IS>(env: Env<P, IS>, p: Process, w: World<P>, command: string, task: Task<P>): (r: (World<P>, Result<ValidationState, Error>))
    ensures !HasCommand(p, command) ==> r == (w, Failure(CommandMissing(p.edition, command)))
    ensures HasCommand(p, command) ==>
      var (w1, action) := ResolveIn(env, w, Named(command));
      && r.0 == w1
      && (action.Failure? ==> r.1 == Failure(action.error))
      && (action.Success? && Of(env, action.value).validateTask.Some? ==> r.1 == Success(Of(env, action.value).validateTask.value(task)))
      && (action.Success? && Of(env, action.value).validateTask.None? ==> r.1 == Success(Valid))
    ensures r.1 == Failure(CommandMissing(p.edition, command)) <==> !HasCommand(p, command)
  {
    if !CommandExists(p, command) then (w, Failure(CommandMissing(p.edition, command)))
    else
      var (w1, action) := ResolveIn(env, w, Named(command));
      if action.Failure? then (w1, Failure(action.error))
      else match Of(env, action.value).validateTask
        case Some(validate) => (w1, Success(validate(task)))
        case None => (w1, Success(Valid))
  }

  /**
   * `invokeCommand(command, task)`: the same existence check, then the
   * action's `updateTask`, told the process name, produces the result.
   */
  function InvokeCommand<P, IS>(env: Env<P, IS>, p: Process, w: World<P>, command: string, task: Task<P>): (r: (World<P>, Result<Task<P>, Error>))
    ensures !HasCommand(p, command) ==> r == (w, Failure(CommandMissing(p.edition, command)))
    ensures HasCommand(p, command) ==>
      var (w1, action) := ResolveIn(env, w, Named(command));
      && (action.Failure? ==> r == (w1, Failure(action.error)))
      && (action.Success? && Of(env, action.value).updateTask.None? ==> r == (w1, Failure(NotCallable("action.updateTask"))))
      && (action.Success? && Of(env, action.value).updateTask.Some? ==>
            var (store, out) := Of(env, action.value).updateTask.value(p.name, task, w1.store);
            r == (w1.(store := store), out))
  {
    if !CommandExists(p, command) then (w, Failure(CommandMissing(p.edition, command)))
    else
      var (w1, action) := ResolveIn(env, w, Named(command));
      if action.Failure? then (w1, Failure(action.error))
      else match Of(env, action.value).updateTask
        case Some(update) =>
          var (store, out) := update(p.name, task, w1.store);
          (w1.(store := store), out)
        case None => (w1, Failure(NotCallable("action.updateTask")))
  }

  /**
   * `validateInitialState(state)`: the initial action is resolved (any
   * failure reads as a missing initial command); its validator answers,
   * or the state is valid.
   */
  function ValidateInitialState<P, IS>(env: Env<P, IS>, p: Process, w: World<P>, state: IS): (r: (World<P>, Result<ValidationState, Error>))
    ensures var (w1, action) := ResolveIn(env, w, Named(InitialActionCommand));
      && r.0 == w1
      && (action.Failure? ==> r.1 == Failure(InitialMissing(p.edition)))
      && (action.Success? && Of(env, action.value).validateInitialState.Some? ==>
            r.1 == Success(Of(env, action.value).validateInitialState.value(state)))
      && (action.Success? && Of(env, action.value).validateInitialState.None? ==> r.1 == Success(Valid))
  {
    var (w1, action) := ResolveIn(env, w, Named(InitialActionCommand));
    if action.Failure? then (w1, Failure(InitialMissing(p.edition)))
    else match Of(env, action.value).validateInitialState
      case Some(validate) => (w1, Success(validate(state)))
      case None => (w1, Success(Valid))
  }

  /** `createInitialTask(state)`: the initial action's `createTask`, told the process name. */
  function CreateInitialTask<P, IS>(env: Env<P, IS>, p: Process, w: World<P>, state: IS): (r: (World<P>, Result<Task<P>, Error>))
    ensures var (w1, action) := ResolveIn(env, w, Named(InitialActionCommand));
      && (action.Failure? ==> r == (w1, Failure(InitialMissing(p.edition))))
      && (action.Success? && Of(env, action.value).createTask.None? ==> r == (w1, Failure(NotCallable("initialAction.createTask"))))
      && (action.Success? && Of(env, action.value).createTask.Some? ==>
            var (store, out) := Of(env, action.value).createTask.value(p.name, state, w1.store);
            r == (w1.(store := store), out))
  {
    var (w1, action) := ResolveIn(env, w, Named(InitialActionCommand));
    if action.Failure? then (w1, Failure(InitialMissing(p.edition)))
    else match Of(env, action.value).createTask
      case Some(create) =>
        var (store, out) := create(p.name, state, w1.store);
        (w1.(store := store), out)
      case None => (w1, Failure(NotCallable("initialAction.createTask")))
  }

  // ---- gates (current and older editions only) ----

  /** The token of the update operator for a task's status. */
  function UpdateToken(p: Process, status: string): (t: Token)
    ensures t.Named? && t.name == UpdateOperatorName(LineageOf(p.edition), status)
  {
    Named(UpdateOperatorName(LineageOf(p.edition), status))
  }

  /** The token of the read operator for a task's status. */
  function ReadToken(p: Process, status: string): (t: Token)
    ensures t.Named? && t.name == ReadOperatorName(LineageOf(p.edition), status)
  {
    Named(ReadOperatorName(LineageOf(p.edition), status))
  }

  /**
   * `validateUpdateOperation(task)`: the update operator's `isOperationValid`
   * answers when the operator resolves and defines it; otherwise valid.
   */
  function ValidateUpdateOperation<P, IS>(env: Env<P, IS>, p: Process, w: World<P>, task: Task<P>): (r: (World<P>, ValidationState))
    requires p.edition != OldestEdition
    ensures var (w1, op) := TryResolveIn(env, w, UpdateToken(p, task.status));
      && r.0 == w1
      && (op.Some? && Of(env, op.value).isOperationValid.Some? ==> r.1 == Of(env, op.value).isOperationValid.value(task))
      && (op.None? || Of(env, op.value).isOperationValid.None? ==> r.1 == Valid)
  {
    var (w1, op) := TryResolveIn(env, w, UpdateToken(p, task.status));
    if op.Some? && Of(env, op.value).isOperationValid.Some? then (w1, Of(env, op.value).isOperationValid.value(task))
    else (w1, Valid)
  }

  /**
   * `validateReadOperation(task)`: likewise for the read operator, except
   * that the older edition calls `isOperationValid` on any operator it
   * resolves, so an operator without it fails there.
   */
  function ValidateReadOperation<P, IS>(env: Env<P, IS>, p: Process, w: World<P>, task: Task<P>): (r: (World<P>, Result<ValidationState, Error>))
    requires p.edition != OldestEdition
    ensures var (w1, op) := TryResolveIn(env, w, ReadToken(p, task.status));
      && r.0 == w1
      && (op.None? ==> r.1 == Success(Valid))
      && (op.Some? && Of(env, op.value).isOperationValid.Some? ==> r.1 == Success(Of(env, op.value).isOperationValid.value(task)))
      && (op.Some? && Of(env, op.value).isOperationValid.None? ==>
            r.1 == if p.edition == CoreEdition then Success(Valid) else Failure(NotCallable("readOperator.isOperationValid")))
    ensures p.edition == CoreEdition ==> r.1.Success?
  {
    var (w1, op) := TryResolveIn(env, w, ReadToken(p, task.status));
    if op.None? then (w1, Success(Valid))
    else match Of(env, op.value).isOperationValid
      case Some(check) => (w1, Success(check(task)))
      case None => if p.edition == CoreEdition then (w1, Success(Valid)) else (w1, Failure(NotCallable("readOperator.isOperationValid")))
  }

  /** The error for an update with no usable operator. */
  function UpdateMissing(e: Edition, status: string): (err: Error)
    ensures e == CoreEdition ==> err == UpdateMethodNotImplemented(status)
    ensures e != CoreEdition ==> err == Thrown("The update task method is not implemented for status \"" + status + "\"")
  {
    if e == CoreEdition then UpdateMethodNotImplemented(status)
    else Thrown("The update task method is not implemented for status \"" + status + "\"")
  }

  /**
   * `updateTask(task, payload)`: the update operator's `updateTask` writes
   * the payload. With no operator the update is refused; the current
   * edition also refuses an operator lacking the method, while the older
   * one calls it regardless.
   */
  function UpdateTask<P, IS>(env: Env<P, IS>, p: Process, w: World<P>, task: Task<P>, payload: P): (r: (World<P>, Result<Task<P>, Error>))
    requires p.edition != OldestEdition
    ensures var (w1, op) := TryResolveIn(env, w, UpdateToken(p, task.status));
      && (op.None? ==> r == (w1, Failure(UpdateMissing(p.edition, task.status))))
      && (op.Some? && Of(env, op.value).updateWithPayload.Some? ==>
            var (store, out) := Of(env, op.value).updateWithPayload.value(task, payload, w1.store);
            r == (w1.(store := store), out))
      && (op.Some? && Of(env, op.value).updateWithPayload.None? ==>
            r == (w1, Failure(if p.edition == CoreEdition then UpdateMissing(p.edition, task.status) else NotCallable("updateOperator.updateTask"))))
  {
    var (w1, op) := TryResolveIn(env, w, UpdateToken(p, task.status));
    if op.None? then (w1, Failure(UpdateMissing(p.edition, task.status)))
    else match Of(env, op.value).updateWithPayload
      case Some(update) =>
        var (store, out) := update(task, payload, w1.store);
        (w1.(store := store), out)
      case None =>
        if p.edition == CoreEdition then (w1, Failure(UpdateMissing(p.edition, task.status)))
        else (w1, Failure(NotCallable("updateOperator.updateTask")))
  }
}
