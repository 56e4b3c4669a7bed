/**
 * The backend Todo application end to end: the core-edition façade over
 * the process built from the Todo declarations, with a container in which
 * each Todo class answers under the token the bootstrap gives it. Reads and
 * updates of a closed todo are refused with the operators' messages; the
 * other statuses read and update freely; a command is accepted exactly when
 * the todo's status offers it, and then moves the todo to the action's
 * status. Every todo the application stores has one of the five statuses.
 */
module TodoScenarios {
  import opened Wrappers
  import opened Common
  import opened Decimal
  import opened Graph
  import opened Container
  import opened Inject
  import opened Behaviours
  import opened StepOperators
  import opened Metadata
  import opened PS = Process
  import opened Availability
  import opened TodoDemo
  import App = Application
  import TR = TaskRepository

  /**
   * A core-edition process offering the Todo commands at the five
   * statuses, as the backend's process does (see `BackendIsTodo`).
   */
  ghost predicate TodoProcess(p: PS.Process) {
    && p.edition == CoreEdition && Inv(p)
    && forall s :: s in Statuses ==> GetAvailableStatusCommands(p, s) == Success(BackendOffers(s))
  }

  /** The process the backend builds from the Todo declarations is such a process. */
  lemma BackendIsTodo()
    ensures BackendProcess(CoreEdition).Success? && TodoProcess(BackendProcess(CoreEdition).value)
  {
    BackendCommands(CoreEdition, NewStatus);
    var p := BackendProcess(CoreEdition).value;
    assert p.edition == CoreEdition by {
      assert Inv(PS.Process(CoreEdition, TodoProcessName, Empty()));
    }
    forall s | s in Statuses
      ensures GetAvailableStatusCommands(p, s) == Success(BackendOffers(s))
    {
      BackendCommands(CoreEdition, s);
    }
  }

  /** The class answering the update token of a status. */
  function UpdateClassOf(s: string): ClassId {
    if s == ClosedStatus then ProhibitingUpdateClass else DefaultUpdateClass
  }

  /** `t` is a transient of `cls` only, constructed without arguments. */
  ghost predicate Answers(env: Env<Todo, NewTodo>, c: Context, t: Token, cls: ClassId) {
    t !in c.singletons && t in c.transients && c.transients[t] == cls && cls !in env.classes
  }

  /**
   * The container and method table of the running backend: the initial
   * action, the four commands, an update operator per status and the
   * closed step's read operator answer with their classes (constructed
   * without arguments: the repository each class injects is the world's
   * store), and no status but `closed` has a read operator.
   */
  ghost predicate Wired(env: Env<Todo, NewTodo>, c: Context, now: nat) {
    && env.fuel > 0
    && (forall cls :: cls in Methods(now) ==> cls in env.methods && env.methods[cls] == Methods(now)[cls])
    && Answers(env, c, Named(InitialActionCommand), InitialTodoClass)
    && (forall a: TodoAction :: Answers(env, c, Named(ActionCommand(a)), ActionClassOf(a)))
    && (forall s :: s in Statuses ==> Answers(env, c, Named(UpdateOperatorName(Current, s)), UpdateClassOf(s)))
    && Answers(env, c, Named(ReadOperatorName(Current, ClosedStatus)), ProhibitingReadClass)
    && (forall s :: s != ClosedStatus ==>
          Named(ReadOperatorName(Current, s)) !in c.singletons && Named(ReadOperatorName(Current, s)) !in c.transients)
  }

  /**
   * A container wired as `Wired` asks: every Todo class registered as a
   * transient under the token the bootstrap gives it, nothing else.
   */
  function TodoContainer(): Context {
    Context(map[], map[], map[
      Named(InitialActionCommand) := InitialTodoClass,
      Named(ToWork) := ActionClassOf(ToWorkAction),
      Named(Hold) := ActionClassOf(HoldAction),
      Named(Complete) := ActionClassOf(CompleteAction),
      Named(Close) := ActionClassOf(CloseAction),
      Named(UpdateOperatorName(Current, NewStatus)) := DefaultUpdateClass,
      Named(UpdateOperatorName(Current, InProgressStatus)) := DefaultUpdateClass,
      Named(UpdateOperatorName(Current, HoldingStatus)) := DefaultUpdateClass,
      Named(UpdateOperatorName(Current, CompletedStatus)) := DefaultUpdateClass,
      Named(UpdateOperatorName(Current, ClosedStatus)) := ProhibitingUpdateClass,
      Named(ReadOperatorName(Current, ClosedStatus)) := ProhibitingReadClass
    ], 1, Current)
  }

  /** `Wired` can be met: the Todo container with the Todo methods and no injection table. */
  lemma TodoContainerIsWired(now: nat)
    ensures Wired(Env(map[], Methods(now), 1), TodoContainer(), now)
  {
    var env: Env<Todo, NewTodo> := Env(map[], Methods(now), 1);
    TodoCommandsAnswer(env);
    TodoUpdatesAnswer(env);
    TodoReadAnswers(env);
    TodoNoOtherRead();
  }

  /** The five distinct update tokens, and the closed step's read token after them. */
  lemma TodoTokensDistinct()
    ensures forall i, j :: 0 <= i < j < |Statuses| ==> UpdateOperatorName(Current, Statuses[i]) != UpdateOperatorName(Current, Statuses[j])
    ensures forall u :: UpdateOperatorName(Current, u) != ReadOperatorName(Current, ClosedStatus)
  {
    forall i, j | 0 <= i < j < |Statuses| ensures UpdateOperatorName(Current, Statuses[i]) != UpdateOperatorName(Current, Statuses[j]) {
      NamesInjective(Current, Statuses[i], Statuses[j]);
    }
    forall u ensures UpdateOperatorName(Current, u) != ReadOperatorName(Current, ClosedStatus) {
      UpdateIsNeverRead(Current, u, ClosedStatus);
    }
  }

  /** The initial action and the four commands answer with their classes. */
  lemma TodoCommandsAnswer(env: Env<Todo, NewTodo>)
    requires env.classes == map[]
    ensures Answers(env, TodoContainer(), Named(InitialActionCommand), InitialTodoClass)
    ensures forall a: TodoAction :: Answers(env, TodoContainer(), Named(ActionCommand(a)), ActionClassOf(a))
  {
  }

  /** Each status's update token answers with its update operator. */
  lemma TodoUpdatesAnswer(env: Env<Todo, NewTodo>)
    requires env.classes == map[]
    ensures forall s :: s in Statuses ==> Answers(env, TodoContainer(), Named(UpdateOperatorName(Current, s)), UpdateClassOf(s))
  {
    TodoTokensDistinct();
  }

  /** The closed step's read token answers with the prohibiting read operator. */
  lemma TodoReadAnswers(env: Env<Todo, NewTodo>)
    requires env.classes == map[]
    ensures Answers(env, TodoContainer(), Named(ReadOperatorName(Current, ClosedStatus)), ProhibitingReadClass)
  {
  }

  /** No other status has a read token registered. */
  lemma TodoNoOtherRead()
    ensures forall s :: s != ClosedStatus ==> Named(ReadOperatorName(Current, s)) !in TodoContainer().transients
  {
    forall s | s != ClosedStatus
      ensures Named(ReadOperatorName(Current, s)) !in TodoContainer().transients
    {
      ReadNameEnd(s);
      NamesInjective(Current, s, ClosedStatus);
      forall u ensures UpdateOperatorName(Current, u) != ReadOperatorName(Current, s) {
        UpdateIsNeverRead(Current, u, s);
      }
    }
  }

  /** A current-lineage read token ends in '_', which no command does. */
  lemma ReadNameEnd(s: string)
    ensures var t := ReadOperatorName(Current, s); t[|t| - 1] == '_'
  {
    var t := ReadOperatorName(Current, s);
    assert t[|t| - 1] == t[|s| + 2..][15];
  }

  /** The Todo methods of each class a registration names. */
  lemma RegisteredMethods(now: nat)
    ensures InitialTodoClass in Methods(now) && Methods(now)[InitialTodoClass] == InitialMethods(now)
    ensures forall a :: ActionClassOf(a) in Methods(now) && Methods(now)[ActionClassOf(a)] == ActionMethods(a)
    ensures DefaultUpdateClass in Methods(now) && Methods(now)[DefaultUpdateClass] == DefaultUpdateMethods()
    ensures ProhibitingUpdateClass in Methods(now) && Methods(now)[ProhibitingUpdateClass] == ProhibitingUpdateMethods()
    ensures ProhibitingReadClass in Methods(now) && Methods(now)[ProhibitingReadClass] == ProhibitingReadMethods()
  {
  }

  /**
   * Resolving a token that answers constructs its class, whose methods are
   * the Todo ones; the store is untouched and the wiring stays.
   */
  lemma Resolves(env: Env<Todo, NewTodo>, w: World<Todo>, now: nat, t: Token, cls: ClassId)
    requires Wired(env, w.ctx, now) && Answers(env, w.ctx, t, cls) && cls in Methods(now)
    ensures var (w1, r) := ResolveIn(env, w, t);
      && r.Success? && r.value.cls == cls && Of(env, r.value) == Methods(now)[cls]
      && w1.store == w.store && Wired(env, w1.ctx, now)
  {
    assert Construct(env.classes, w.ctx, cls, env.fuel).1.Success?;
    var (w1, r) := ResolveIn(env, w, t);
    assert Extends(w.ctx, w1.ctx);
    forall a: TodoAction ensures Answers(env, w1.ctx, Named(ActionCommand(a)), ActionClassOf(a)) {
      assert Answers(env, w.ctx, Named(ActionCommand(a)), ActionClassOf(a));
    }
    forall s | s in Statuses ensures Answers(env, w1.ctx, Named(UpdateOperatorName(Current, s)), UpdateClassOf(s)) {
      assert Answers(env, w.ctx, Named(UpdateOperatorName(Current, s)), UpdateClassOf(s));
    }
  }

  // ---- reading ----

  /**
   * `getTask(id)` of a stored todo succeeds exactly when it is not closed:
   * a closed todo is refused with the read operator's message, any other is
   * returned as stored. A read writes nothing.
   */
  lemma ReadGate(env: Env<Todo, NewTodo>, p: PS.Process, w: World<Todo>, now: nat, id: string)
    requires TodoProcess(p) && Wired(env, w.ctx, now) && TR.GetTask(w.store, id).Some?
    ensures var task := TR.GetTask(w.store, id).value;
      var (w1, r) := App.GetTask(env, p, w, id);
      && w1.store == w.store
      && (r.Success? <==> task.status != ClosedStatus)
      && (task.status == ClosedStatus ==> r == Failure(Validation(id, "Reading a task with status closed is prohibited")))
      && (task.status != ClosedStatus ==> r == Success(task))
  {
    var task := TR.GetTask(w.store, id).value;
    if task.status == ClosedStatus {
      RegisteredMethods(now);
      Resolves(env, w, now, ReadToken(p, ClosedStatus), ProhibitingReadClass);
    }
  }

  // ---- updating ----

  /** The update operator of a status resolves to its class's methods. */
  lemma UpdateOperatorOf(env: Env<Todo, NewTodo>, p: PS.Process, w: World<Todo>, now: nat, status: string)
    requires TodoProcess(p) && Wired(env, w.ctx, now) && status in Statuses
    ensures var (w1, op) := TryResolveIn(env, w, UpdateToken(p, status));
      && op.Some? && w1.store == w.store && Wired(env, w1.ctx, now)
      && Of(env, op.value) == (if status == ClosedStatus then ProhibitingUpdateMethods() else DefaultUpdateMethods())
  {
    RegisteredMethods(now);
    Resolves(env, w, now, UpdateToken(p, status), UpdateClassOf(status));
  }

  /**
   * `updateTask(id, payload)` of a stored todo: a closed one is refused with
   * the update operator's message and nothing is written; any other gets
   * the new payload, keeps its id and status, and reads back as updated.
   */
  lemma UpdateGate(env: Env<Todo, NewTodo>, p: PS.Process, w: World<Todo>, now: nat, id: string, payload: Todo)
    requires TodoProcess(p) && Wired(env, w.ctx, now)
    requires TR.GetTask(w.store, id).Some? && TR.GetTask(w.store, id).value.status in Statuses
    ensures var task := TR.GetTask(w.store, id).value;
      var (w1, r) := App.UpdateTask(env, p, w, id, payload);
      && (r.Success? <==> task.status != ClosedStatus)
      && (task.status == ClosedStatus ==>
            w1.store == w.store && r == Failure(Validation(id, "Updating a task with status closed is prohibited")))
      && (task.status != ClosedStatus ==>
            && r == Success(task.(payload := payload))
            && TR.UpdateTask(w.store, r.value) == Success(w1.store)
            && TR.GetTask(w1.store, id) == Some(r.value))
  {
    var task := TR.GetTask(w.store, id).value;
    UpdateOperatorOf(env, p, w, now, task.status);
    var (w1, _) := ValidateUpdateOperation(env, p, w, task);
    if task.status != ClosedStatus {
      UpdateOperatorOf(env, p, w1, now, task.status);
    }
  }

  // ---- creating ----

  /**
   * `createTask(state)`: a submission without a name or a text is refused
   * as the initial task with the validator's message, and nothing is
   * written; a complete one is stored as a `new` todo under the next id.
   */
  lemma CreateScenario(env: Env<Todo, NewTodo>, p: PS.Process, w: World<Todo>, now: nat, state: NewTodo)
    requires TodoProcess(p) && Wired(env, w.ctx, now)
    ensures var (w1, r) := App.CreateTask(env, p, w, state);
      && (r.Success? <==> state.name != "" && state.text != "")
      && (r.Failure? ==> w1.store == w.store && r.error == Validation("\"initial task\"", ValidateNewTodo(state).errorMessage.value))
      && (r.Success? ==>
            && r.value.status == NewStatus && r.value.processName == p.name
            && r.value.id == NatToString(w.store.counter)
            && r.value.payload.name == state.name && r.value.payload.text == state.text
            && w1.store.tasks == w.store.tasks + [r.value])
  {
    RegisteredMethods(now);
    Resolves(env, w, now, Named(InitialActionCommand), InitialTodoClass);
    var (w1, _) := ValidateInitialState(env, p, w, state);
    Resolves(env, w1, now, Named(InitialActionCommand), InitialTodoClass);
  }

  // ---- commands ----

  /** The action registered under a Todo command. */
  function ActionFor(c: string): (a: Option<TodoAction>)
    ensures a.Some? <==> c in [ToWork, Hold, Complete, Close]
    ensures a.Some? ==> ActionCommand(a.value) == c
  {
    if c == ToWork then Some(ToWorkAction)
    else if c == Hold then Some(HoldAction)
    else if c == Complete then Some(CompleteAction)
    else if c == Close then Some(CloseAction)
    else None
  }

  /**
   * `invokeCommand(id, c)` of a stored todo: a command its status does not
   * offer is refused as not available, and nothing changes; an offered one
   * moves the todo to its action's status, which the repository then holds.
   */
  lemma InvokeScenario(env: Env<Todo, NewTodo>, p: PS.Process, w: World<Todo>, now: nat, id: string, c: string)
    requires TodoProcess(p) && Wired(env, w.ctx, now)
    requires TR.GetTask(w.store, id).Some? && TR.GetTask(w.store, id).value.status in Statuses
    ensures var task := TR.GetTask(w.store, id).value;
      var (w1, r) := App.InvokeCommand(env, p, w, id, c);
      && (r.Success? <==> c in BackendOffers(task.status))
      && (c !in BackendOffers(task.status) ==> (w1, r) == (w, Failure(CommandValidation(c, Some(App.CommandIsNotAvailable)))))
      && (c in BackendOffers(task.status) ==>
            && ActionFor(c).Some?
            && r == Success(task.(status := TargetStatus(ActionFor(c).value)))
            && TR.UpdateTask(w.store, r.value) == Success(w1.store)
            && TR.GetTask(w1.store, id) == Some(r.value))
  {
    var task := TR.GetTask(w.store, id).value;
    if c in BackendOffers(task.status) {
      OfferedCommandExists(p, task.status, c);
      var a := ActionFor(c).value;
      RegisteredMethods(now);
      Resolves(env, w, now, Named(c), ActionClassOf(a));
      var (w1, _) := ValidateCommand(env, p, w, c, task);
      Resolves(env, w1, now, Named(c), ActionClassOf(a));
    }
  }

  // ---- the status invariant ----

  /** Every stored todo has one of the process's five statuses. */
  ghost predicate KnownStatuses(s: TR.Store<Todo>) {
    forall k :: 0 <= k < |s.tasks| ==> s.tasks[k].status in Statuses
  }

  /** Replacing a stored todo by one with a known status keeps the statuses known. */
  lemma ReplaceKeepsKnown(s: TR.Store<Todo>, t: Task<Todo>)
    requires KnownStatuses(s) && t.status in Statuses && TR.UpdateTask(s, t).Success?
    ensures KnownStatuses(TR.UpdateTask(s, t).value)
  {
    var k :| 0 <= k < |s.tasks| && s.tasks[k].id == t.id && TR.UpdateTask(s, t).value.tasks == s.tasks[k := t];
  }

  /** A looked-up todo is a stored one, so its status is known. */
  lemma FoundIsKnown(s: TR.Store<Todo>, id: string)
    requires KnownStatuses(s) && TR.GetTask(s, id).Some?
    ensures TR.GetTask(s, id).value.status in Statuses
  {
  }

  /** Creating keeps every stored todo's status one of the five. */
  lemma CreateKeepsStatusesKnown(env: Env<Todo, NewTodo>, p: PS.Process, w: World<Todo>, now: nat, state: NewTodo)
    requires TodoProcess(p) && Wired(env, w.ctx, now) && KnownStatuses(w.store)
    ensures KnownStatuses(App.CreateTask(env, p, w, state).0.store)
  {
    var (w1, r) := App.CreateTask(env, p, w, state);
    assert w1.store == w.store || (r.Success? && r.value.status == NewStatus && w1.store.tasks == w.store.tasks + [r.value]) by {
      CreateScenario(env, p, w, now, state);
    }
    if w1.store != w.store {
      AppendKeepsKnown(w.store, w1.store, r.value);
    }
  }

  /** Appending a `new` todo keeps the statuses known. */
  lemma AppendKeepsKnown(s: TR.Store<Todo>, s1: TR.Store<Todo>, t: Task<Todo>)
    requires KnownStatuses(s) && t.status == NewStatus && s1.tasks == s.tasks + [t]
    ensures KnownStatuses(s1)
  {
    assert forall k :: 0 <= k < |s.tasks| ==> s1.tasks[k] == s.tasks[k];
  }

  /** Invoking a command keeps every stored todo's status one of the five. */
  lemma InvokeKeepsStatusesKnown(env: Env<Todo, NewTodo>, p: PS.Process, w: World<Todo>, now: nat, id: string, c: string)
    requires TodoProcess(p) && Wired(env, w.ctx, now) && KnownStatuses(w.store)
    ensures KnownStatuses(App.InvokeCommand(env, p, w, id, c).0.store)
  {
    if TR.GetTask(w.store, id).Some? {
      var task := TR.GetTask(w.store, id).value;
      FoundIsKnown(w.store, id);
      InvokeScenario(env, p, w, now, id, c);
      var (w1, r) := App.InvokeCommand(env, p, w, id, c);
      if r.Success? {
        var a := ActionFor(c).value;
        assert r.value.status == TargetStatus(a);
        assert TargetStatus(a) in Statuses by {
          match a
          case ToWorkAction =>
          case HoldAction =>
          case CompleteAction =>
          case CloseAction =>
        }
        ReplaceKeepsKnown(w.store, r.value);
      }
    }
  }

  /** Updating keeps every stored todo's status one of the five. */
  lemma UpdateKeepsStatusesKnown(env: Env<Todo, NewTodo>, p: PS.Process, w: World<Todo>, now: nat, id: string, payload: Todo)
    requires TodoProcess(p) && Wired(env, w.ctx, now) && KnownStatuses(w.store)
    ensures KnownStatuses(App.UpdateTask(env, p, w, id, payload).0.store)
  {
    if TR.GetTask(w.store, id).Some? {
      var task := TR.GetTask(w.store, id).value;
      FoundIsKnown(w.store, id);
      UpdateGate(env, p, w, now, id, payload);
      var (w1, r) := App.UpdateTask(env, p, w, id, payload);
      if r.Success? {
        ReplaceKeepsKnown(w.store, r.value);
      }
    }
  }
}
