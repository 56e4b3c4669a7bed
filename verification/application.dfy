/**
 * `BaseApplication` of the current lineage, the developer-facing façade:
 * each operation looks the task up in the repository, runs the process's
 * gate for it, and only then lets the process act. And `bootstrapApplication`,
 * which wires a module tree into a context, a process and a repository.
 * The repository's state is the world's store; the process is built once.
 */
module Application {
  import opened Wrappers
  import opened Common
  import opened Container
  import opened Pipeline
  import opened Behaviours
  import opened PS = Process
  import opened Graph
  import opened Metadata
  import opened ActionOperators
  import ProcessBuilder
  import Modules
  import TR = TaskRepository

  /** `COMMAND_IS_NOT_AVAILABLE`. */
  const CommandIsNotAvailable: string := "Command is not available"

  /** `errorMessage ?? 'Error'`: a missing message reads 'Error'; an empty one stays empty. */
  function ReasonOf(v: ValidationState): (m: string)
    requires v.Invalid?
    ensures v.errorMessage.Some? ==> m == v.errorMessage.value
    ensures v.errorMessage.None? ==> m == "Error"
  {
    v.errorMessage.GetOr("Error")
  }

  // ---- createTask ----

  /**
   * `createTask(payload)`: the initial state is validated first; only a
   * valid state reaches the initial action's `createTask`. An invalid one
   * is refused as the task `"initial task"`, and nothing is written.
   */
  function CreateTask<P, IS>(env: Env<P, IS>, p: PS.Process, w: World<P>, state: IS): (r: (World<P>, Result<Task<P>, Error>))
    ensures var (w1, v) := ValidateInitialState(env, p, w, state);
      && (r.1.Success? ==> v == Success(Valid))
      && (v == Success(Valid) ==> r == CreateInitialTask(env, p, w1, state))
      && (v.Success? && v.value.Invalid? ==>
            && r.0.store == w.store
            && r.1 == Failure(Validation("\"initial task\"", ReasonOf(v.value))))
      && (v.Failure? ==> r.0.store == w.store && r.1 == Failure(InitialMissing(p.edition)))
  {
    var (w1, v) := ValidateInitialState(env, p, w, state);
    if v.Failure? then (w1, Failure(v.error))
    else if v.value.Invalid? then (w1, Failure(Validation("\"initial task\"", ReasonOf(v.value))))
    else CreateInitialTask(env, p, w1, state)
  }

  // ---- invokeCommand ----

  /**
   * `invokeCommand(taskId, command)`: an unknown task is refused; a command
   * that does not leave the task's status is refused before any action is
   * resolved; then the action's validator is asked, and only a valid
   * answer lets the action run.
   */
  function InvokeCommand<P, IS>(env: Env<P, IS>, p: PS.Process, w: World<P>, taskId: string, command: string): (r: (World<P>, Result<Task<P>, Error>))
    ensures TR.GetTask(w.store, taskId).None? ==> r == (w, Failure(TaskNotFound(taskId)))
    ensures TR.GetTask(w.store, taskId).Some? ==>
      var task := TR.GetTask(w.store, taskId).value;
      var avail := GetAvailableStatusCommands(p, task.status);
      && (avail.Failure? ==> r == (w, Failure(avail.error)))
      && (avail.Success? && command !in avail.value ==> r == (w, Failure(CommandValidation(command, Some(CommandIsNotAvailable)))))
      && (avail.Success? && command in avail.value ==>
            var (w1, v) := ValidateCommand(env, p, w, command, task);
            && (v.Success? && v.value.Invalid? ==> r.0.store == w.store && r.1 == Failure(CommandValidation(command, v.value.errorMessage)))
            && (v == Success(Valid) ==> r == PS.InvokeCommand(env, p, w1, command, task)))
    ensures r.1.Success? ==>
      && TR.GetTask(w.store, taskId).Some?
      && var task := TR.GetTask(w.store, taskId).value;
      && GetAvailableStatusCommands(p, task.status).Success?
      && command in GetAvailableStatusCommands(p, task.status).value
      && ValidateCommand(env, p, w, command, task).1 == Success(Valid)
  {
    match TR.GetTask(w.store, taskId)
    case None => (w, Failure(TaskNotFound(taskId)))
    case Some(task) =>
      var avail := GetAvailableStatusCommands(p, task.status);
      if avail.Failure? then (w, Failure(avail.error))
      else if command !in avail.value then (w, Failure(CommandValidation(command, Some(CommandIsNotAvailable))))
      else
        var (w1, v) := ValidateCommand(env, p, w, command, task);
        if v.Failure? then (w1, Failure(v.error))
        else if v.value.Invalid? then (w1, Failure(CommandValidation(command, v.value.errorMessage)))
        else PS.InvokeCommand(env, p, w1, command, task)
  }

  // ---- getTaskCommands, getTasks ----

  /** `getTaskCommands(taskId)`: the commands available at the task's status. */
  function GetTaskCommands<P>(p: PS.Process, w: World<P>, taskId: string): (r: Result<seq<string>, Error>)
    ensures TR.GetTask(w.store, taskId).None? ==> r == Failure(TaskNotFound(taskId))
    ensures TR.GetTask(w.store, taskId).Some? ==> r == GetAvailableStatusCommands(p, TR.GetTask(w.store, taskId).value.status)
  {
    match TR.GetTask(w.store, taskId)
    case None => Failure(TaskNotFound(taskId))
    case Some(task) => GetAvailableStatusCommands(p, task.status)
  }

  /**
   * The listed commands are exactly those `invokeCommand` lets through to
   * the action's validator: any other command is refused as not available,
   * with nothing resolved and nothing written.
   */
  lemma ListedCommandsAreTheInvocableOnes<P, IS>(env: Env<P, IS>, p: PS.Process, w: World<P>, taskId: string, command: string)
    requires GetTaskCommands(p, w, taskId).Success?
    ensures var task := TR.GetTask(w.store, taskId).value;
      && (command !in GetTaskCommands(p, w, taskId).value ==>
            InvokeCommand(env, p, w, taskId, command) == (w, Failure(CommandValidation(command, Some(CommandIsNotAvailable)))))
      && (command in GetTaskCommands(p, w, taskId).value ==>
            var (w1, v) := ValidateCommand(env, p, w, command, task);
            v == Success(Valid) ==> InvokeCommand(env, p, w, taskId, command) == PS.InvokeCommand(env, p, w1, command, task))
  {
  }

  /**
   * `getTasks()`: the repository's tasks as stored, in the order they were
   * added, each of which can be looked up by its id.
   */
  function GetTasks<P>(w: World<P>): (r: seq<Task<P>>)
    ensures |r| == |w.store.tasks|
    ensures forall k :: 0 <= k < |r| ==> r[k] == w.store.tasks[k]
    ensures forall k :: 0 <= k < |r| ==> TR.GetTask(w.store, r[k].id).Some?
    ensures forall t :: t in w.store.tasks ==> t in r
  {
    w.store.tasks
  }

  /**
   * The listing follows the repository: after `addTask` it is the old
   * listing with the stored task last; after a successful `updateTask` the
   * task with that id is replaced in its place and the length is kept.
   */
  lemma TasksAfterWrite<P>(w: World<P>, t: Task<P>)
    ensures GetTasks(w.(store := TR.AddTask(w.store, t).0)) == GetTasks(w) + [TR.AddTask(w.store, t).1]
    ensures TR.UpdateTask(w.store, t).Success? ==>
      var r := GetTasks(w.(store := TR.UpdateTask(w.store, t).value));
      && |r| == |GetTasks(w)|
      && exists k :: 0 <= k < |r| && GetTasks(w)[k].id == t.id && r == GetTasks(w)[k := t]
  {
  }

  // ---- getTask ----

  /**
   * `getTask(taskId)`: the read gate for the task's status decides; a
   * refused read names the task and the gate's reason. A read never writes
   * the repository, and a permitted one returns the stored task.
   */
  function GetTask<P, IS>(env: Env<P, IS>, p: PS.Process, w: World<P>, taskId: string): (r: (World<P>, Result<Task<P>, Error>))
    requires p.edition == CoreEdition
    ensures r.0.store == w.store
    ensures TR.GetTask(w.store, taskId).None? ==> r == (w, Failure(TaskNotFound(taskId)))
    ensures TR.GetTask(w.store, taskId).Some? ==>
      var v := ValidateReadOperation(env, p, w, TR.GetTask(w.store, taskId).value).1;
      && v.Success?
      && (v.value.Invalid? ==> r.1 == Failure(Validation(taskId, ReasonOf(v.value))))
      && (v.value.Valid? ==> r.1 == Success(TR.GetTask(w.store, taskId).value))
    ensures r.1.Success? ==> r.1.value.id == taskId && r.1.value in w.store.tasks
  {
    match TR.GetTask(w.store, taskId)
    case None => (w, Failure(TaskNotFound(taskId)))
    case Some(task) =>
      var (w1, v) := ValidateReadOperation(env, p, w, task);
      var state := if v.Success? then v.value else Valid;
      if state.Invalid? then (w1, Failure(Validation(taskId, ReasonOf(state))))
      else match TR.GetTask(w1.store, taskId)
        case None => (w1, Failure(TaskNotFound(taskId)))
        case Some(again) => (w1, Success(again))
  }

  // ---- updateTask ----

  /**
   * `updateTask(taskId, payload)`: only a valid update gate lets the
   * process update the task; otherwise the update is refused with the
   * gate's reason and nothing is written.
   */
  function UpdateTask<P, IS>(env: Env<P, IS>, p: PS.Process, w: World<P>, taskId: string, payload: P): (r: (World<P>, Result<Task<P>, Error>))
    requires p.edition == CoreEdition
    ensures TR.GetTask(w.store, taskId).None? ==> r == (w, Failure(TaskNotFound(taskId)))
    ensures TR.GetTask(w.store, taskId).Some? ==>
      var task := TR.GetTask(w.store, taskId).value;
      var (w1, v) := ValidateUpdateOperation(env, p, w, task);
      && (v.Invalid? ==> r.0.store == w.store && r.1 == Failure(Validation(taskId, ReasonOf(v))))
      && (v.Valid? ==> r == PS.UpdateTask(env, p, w1, task, payload))
  {
    match TR.GetTask(w.store, taskId)
    case None => (w, Failure(TaskNotFound(taskId)))
    case Some(task) =>
      var (w1, v) := ValidateUpdateOperation(env, p, w, task);
      if v.Valid? then PS.UpdateTask(env, p, w1, task, payload)
      else (w1, Failure(Validation(taskId, ReasonOf(v))))
  }

  // ---- bootstrapApplication ----

  /**
   * `bootstrapApplication(module, processName)`: the context from the
   * module tree, the process from the tree's action declarations (built
   * against that context), then the repository provided under
   * `TASK_REPOSITORY_TOKEN`. The repository's contents are `store`.
   */
  function BootstrapApplication<P, IS>(env: Env<P, IS>, m: ModuleClass, name: ProcessName, store: TR.Store<P>): (r: Result<(PS.Process, World<P>), Error>)
    ensures Modules.BootstrapContext(m).Failure? ==> r == Failure(Modules.BootstrapContext(m).error)
    ensures r.Success? ==> Modules.BootstrapContext(m).Success? && r.value.1.store == store
    ensures r.Success? ==> var c := Modules.BootstrapContext(m).value;
      Named(TR.TaskRepositoryToken) in c.singletons || Named(TR.TaskRepositoryToken) in c.transients
  {
    var ctx :- Modules.BootstrapContext(m);
    var (w1, built) := ProcessBuilder.BuildProcess(env, Pipe(Create(), [FromModule(m)]), CoreEdition, name, World(ctx, store));
    if built.Failure? then Failure(built.error)
    else
      var (w2, repository) := ResolveIn(env, w1, Named(TR.TaskRepositoryToken));
      if repository.Failure? then Failure(repository.error) else Success((built.value, w2))
  }

  /** The declarations of the tree's actions, in walk order. */
  function TreeDeclarations(m: ModuleClass): seq<Declaration> {
    DeclarationsOf(Collect(m, ActionsOf))
  }

  /** A successful bootstrap: the context bootstrapped, then the process built by the module operator. */
  lemma BootstrapApplicationSteps<P, IS>(env: Env<P, IS>, m: ModuleClass, name: ProcessName, store: TR.Store<P>)
    requires BootstrapApplication(env, m, name, store).Success?
    ensures Modules.BootstrapContext(m).Success?
    ensures var (q, w) := BootstrapApplication(env, m, name, store).value;
      && FromModuleTo(PS.Process(CoreEdition, name, Empty()), m) == Success(q)
      && Extends(Modules.BootstrapContext(m).value, w.ctx) && w.store == store
  {
    var p0 := PS.Process(CoreEdition, name, Empty());
    assert Pipe(Create(), [FromModule(m)]).operators == [FromModule(m)];
    ApplyOne(p0, FromModule(m));
  }

  /**
   * A bootstrapped application runs on the bootstrapped context and the
   * given repository contents, and its process is exactly what the tree's
   * actions declare: one step per distinct mentioned status, in
   * first-mention order, and one relation per declared pair, in
   * declaration order, labelled with its command.
   */
  lemma BootstrapApplicationBuilds<P, IS>(env: Env<P, IS>, m: ModuleClass, name: ProcessName, store: TR.Store<P>)
    requires BootstrapApplication(env, m, name, store).Success?
    ensures var (q, w) := BootstrapApplication(env, m, name, store).value;
      var ds := TreeDeclarations(m);
      var p0 := PS.Process(CoreEdition, name, Empty());
      && Modules.BootstrapContext(m).Success?
      && Extends(Modules.BootstrapContext(m).value, w.ctx)
      && w.store == store
      && FullyDecorated(m)
      && q.edition == CoreEdition && q.name == name && Inv(q)
      && q.graph.nodes == ProcessBuilder.AddStepsTo(p0, Seqs.Dedup(StatusesOf(ds))).value.graph.nodes
      && ProcessBuilder.WeightsOf(q.graph.edges) == ProcessBuilder.Labels(RelationsOf(ds))
  {
    BootstrapApplicationSteps(env, m, name, store);
    var p0 := PS.Process(CoreEdition, name, Empty());
    var ds := TreeDeclarations(m);
    assert Inv(p0);
    RelationsNext(p0, ds);
  }

  /**
   * Without a repository registered under `TASK_REPOSITORY_TOKEN`, a tree
   * whose context and process build still fails to bootstrap, with the
   * missing-token error.
   */
  lemma BootstrapNeedsRepository<P, IS>(env: Env<P, IS>, m: ModuleClass, name: ProcessName, store: TR.Store<P>)
    requires Modules.BootstrapContext(m).Success?
    requires var c := Modules.BootstrapContext(m).value;
      Named(TR.TaskRepositoryToken) !in c.singletons && Named(TR.TaskRepositoryToken) !in c.transients
    requires FromModuleTo(PS.Process(CoreEdition, name, Empty()), m).Success?
    ensures BootstrapApplication(env, m, name, store) == Failure(TokenDoesNotExist(Named(TR.TaskRepositoryToken)))
  {
    var p0 := PS.Process(CoreEdition, name, Empty());
    assert Pipe(Create(), [FromModule(m)]).operators == [FromModule(m)];
    ApplyOne(p0, FromModule(m));
    Modules.BootstrapSingletons(m);
  }
}
