/**
 * The Todo demo process, in its two copies: the backend's (decorated
 * actions and steps, bootstrapped from modules) and the sandbox's (the
 * same classes, but the graph and the container wired by hand). A todo
 * moves `new` → `in-progress` ⇄ `holding`, `in-progress` → `completed`,
 * and `new` or `completed` → `closed`; a closed todo can be neither read
 * nor updated.
 */
module TodoDemo {
  import opened Wrappers
  import opened Common
  import opened Decimal
  import opened Graph
  import opened Container
  import opened Pipeline
  import opened ContextBuilder
  import opened Behaviours
  import opened StepOperators
  import opened Metadata
  import opened PS = Process
  import opened ProcessBuilder
  import opened ActionOperators
  import opened Availability
  import TR = TaskRepository
  import IJ = Inject

  // ---- data ----

  datatype Priority = Low | Medium | High

  /** A todo's payload. Dates are clock readings, supplied from outside. */
  datatype Todo = Todo(name: string, text: string, created: nat, workStarted: Option<nat>, priority: Priority)

  /** What a client submits to create a todo; an absent name or text is the empty string. */
  datatype NewTodo = NewTodo(name: string, text: string, priority: Option<Priority>)

  /** `TODO_PROCESS_NAME`. */
  const TodoProcessName: ProcessName := ProcessName("todo demo", "1.0")

  const NewStatus: string := "new"
  const InProgressStatus: string := "in-progress"
  const HoldingStatus: string := "holding"
  const CompletedStatus: string := "completed"
  const ClosedStatus: string := "closed"

  /** The five statuses; their names differ in length, hence pairwise. */
  const Statuses: seq<string> := [NewStatus, InProgressStatus, HoldingStatus, CompletedStatus, ClosedStatus]

  // ---- the initial action ----

  const NameIsEmpty: string := "\"name\" is empty."
  const TextIsEmpty: string := "\"text\" is empty."

  /** The complaints about a submitted todo, name first. */
  function ErrorFields(s: NewTodo): seq<string> {
    (if s.name == "" then [NameIsEmpty] else []) + (if s.text == "" then [TextIsEmpty] else [])
  }

  /** `Array.prototype.join(sep)`. */
  function Join(parts: seq<string>, sep: string): string {
    if |parts| == 0 then "" else if |parts| == 1 then parts[0] else parts[0] + sep + Join(parts[1..], sep)
  }

  /**
   * `validateInitialState(initialState)`: valid exactly when both the name
   * and the text are non-empty; otherwise the complaints, name first,
   * joined by one space.
   */
  function ValidateNewTodo(s: NewTodo): (v: ValidationState)
    ensures v.Valid? <==> s.name != "" && s.text != ""
    ensures s.name == "" && s.text != "" ==> v == Invalid(Some("\"name\" is empty."))
    ensures s.name != "" && s.text == "" ==> v == Invalid(Some("\"text\" is empty."))
    ensures s.name == "" && s.text == "" ==> v == Invalid(Some(NameIsEmpty + " " + TextIsEmpty))
  {
    var fields := ErrorFields(s);
    assert Join([NameIsEmpty, TextIsEmpty], " ") == NameIsEmpty + " " + TextIsEmpty by {
      assert [NameIsEmpty, TextIsEmpty][1..] == [TextIsEmpty];
    }
    if |fields| == 0 then Valid else Invalid(Some(Join(fields, " ")))
  }

  /**
   * `createTask(initialState)` at clock reading `now`: a todo with the
   * submitted name and text, priority `low` unless one was given, not yet
   * started, stored as a `new` task of the process under the repository's
   * next id.
   */
  function CreateTodo(now: nat, pn: ProcessName, s: NewTodo, store: TR.Store<Todo>): (r: Outcome<Todo>)
    ensures r.1.Success?
    ensures var t := r.1.value;
      && t.id == NatToString(store.counter) && t.status == NewStatus && t.processName == pn
      && t.payload.name == s.name && t.payload.text == s.text
      && t.payload.created == now && t.payload.workStarted == None
      && (s.priority.None? ==> t.payload.priority == Low)
      && (s.priority.Some? ==> t.payload.priority == s.priority.value)
    ensures r.0.tasks == store.tasks + [r.1.value] && r.0.counter == store.counter + 1
  {
    var todo := Todo(s.name, s.text, now, None, s.priority.GetOr(Low));
    var (store', stored) := TR.AddTask(store, Task("", NewStatus, pn, todo));
    (store', Success(stored))
  }

  /** While the counter is ahead of every id, the created todo is what its new id finds. */
  lemma CreatedTodoIsFound(now: nat, pn: ProcessName, s: NewTodo, store: TR.Store<Todo>)
    requires TR.IdsBelowCounter(store)
    ensures var (store', r) := CreateTodo(now, pn, s, store);
      TR.GetTask(store', r.value.id) == Some(r.value) && TR.IdsBelowCounter(store')
  {
    var todo := Todo(s.name, s.text, now, None, s.priority.GetOr(Low));
    TR.GetAfterAdd(store, Task("", NewStatus, pn, todo));
    TR.AddKeepsIdsBelow(store, Task("", NewStatus, pn, todo));
  }

  // ---- the actions ----

  datatype TodoAction = ToWorkAction | HoldAction | CompleteAction | CloseAction

  const ToWork: string := "to-work"
  const Hold: string := "hold"
  const Complete: string := "complete"
  const Close: string := "close"

  /** The command each action is registered under. */
  function ActionCommand(a: TodoAction): string {
    match a
    case ToWorkAction => ToWork
    case HoldAction => Hold
    case CompleteAction => Complete
    case CloseAction => Close
  }

  /** The status each action writes. */
  function TargetStatus(a: TodoAction): string {
    match a
    case ToWorkAction => InProgressStatus
    case HoldAction => HoldingStatus
    case CompleteAction => CompletedStatus
    case CloseAction => ClosedStatus
  }

  /** `cleanTask`: a missing task is an error. */
  function CleanTask(t: Option<Task<Todo>>): (r: Result<Task<Todo>, Error>)
    ensures t.None? <==> r.Failure?
    ensures r.Failure? ==> r.error == Thrown("Task is null")
    ensures t.Some? ==> r.value == t.value
  {
    match t
    case None => Failure(Thrown("Task is null"))
    case Some(task) => Success(task)
  }

  /**
   * An action's `updateTask(task)`: the task is written back with the
   * action's status, then re-read. An unknown task fails with the
   * repository's 'Task not found' and writes nothing; a known one always
   * re-reads as the task it just wrote, so `cleanTask` never refuses.
   */
  function Move(a: TodoAction, task: Task<Todo>, store: TR.Store<Todo>): (r: Outcome<Todo>)
    ensures r.1.Success? <==> TR.GetTask(store, task.id).Some?
    ensures r.1.Failure? ==> r.0 == store && r.1.error == Thrown("Task not found")
    ensures r.1.Success? ==>
      && r.1.value == task.(status := TargetStatus(a))
      && TR.UpdateTask(store, r.1.value) == Success(r.0)
      && TR.GetTask(r.0, task.id) == Some(r.1.value)
      && r.0.counter == store.counter && |r.0.tasks| == |store.tasks|
  {
    var moved := task.(status := TargetStatus(a));
    match TR.UpdateTask(store, moved)
    case Failure(e) => (store, Failure(e))
    case Success(store') =>
      TR.GetAfterUpdate(store, moved);
      (store', CleanTask(TR.GetTask(store', task.id)))
  }

  // ---- the step operators ----

  /** `updatingIsProhibited(status)`. */
  function UpdatingIsProhibited(status: string): (m: string)
    ensures status == ClosedStatus ==> m == "Updating a task with status closed is prohibited"
  {
    "Updating a task with status " + status + " is prohibited"
  }

  /** `readIsProhibited(status)`. */
  function ReadIsProhibited(status: string): (m: string)
    ensures status == ClosedStatus ==> m == "Reading a task with status closed is prohibited"
    ensures m != UpdatingIsProhibited(status)
  {
    var m := "Reading a task with status " + status + " is prohibited";
    assert m[0] != UpdatingIsProhibited(status)[0];
    m
  }

  /**
   * `DefaultUpdateOperator.updateTask(task, payload)`: the task with its
   * payload replaced is written back and returned; its id, status and
   * process stay. An unknown task fails and writes nothing.
   */
  function DefaultUpdate(task: Task<Todo>, payload: Todo, store: TR.Store<Todo>): (r: Outcome<Todo>)
    ensures r.1.Success? <==> TR.GetTask(store, task.id).Some?
    ensures r.1.Failure? ==> r.0 == store && r.1.error == Thrown("Task not found")
    ensures r.1.Success? ==>
      && r.1.value.id == task.id && r.1.value.status == task.status && r.1.value.processName == task.processName
      && r.1.value.payload == payload
      && TR.UpdateTask(store, r.1.value) == Success(r.0)
      && TR.GetTask(r.0, task.id) == Some(r.1.value)
  {
    var updated := task.(payload := payload);
    match TR.UpdateTask(store, updated)
    case Failure(e) => (store, Failure(e))
    case Success(store') =>
      TR.GetAfterUpdate(store, updated);
      (store', Success(updated))
  }

  // ---- classes and their methods ----

  const InitialTodoClass: ClassId := "InitialTodoAction"
  const DefaultUpdateClass: ClassId := "DefaultUpdateOperator"
  const ProhibitingUpdateClass: ClassId := "OperatorProhibitingUpdate"
  const ProhibitingReadClass: ClassId := "OperatorProhibitingRead"

  /** The class implementing each action. */
  function ActionClassOf(a: TodoAction): ClassId {
    match a
    case ToWorkAction => "ToWorkAction"
    case HoldAction => "HoldAction"
    case CompleteAction => "CompleteAction"
    case CloseAction => "CloseAction"
  }

  /** The initial action: the validator above and the creation at clock reading `now`. */
  function InitialMethods(now: nat): (b: Behaviour<Todo, NewTodo>)
    ensures b.validateInitialState.Some? && b.createTask.Some? && b.validateTask.None?
  {
    NoMethods<Todo, NewTodo>().(
      validateInitialState := Some((s: NewTodo) => ValidateNewTodo(s)),
      createTask := Some((pn: ProcessName, s: NewTodo, store: TR.Store<Todo>) => CreateTodo(now, pn, s, store)))
  }

  /** An action: `updateTask` only (no validator, so every command it serves is valid). */
  function ActionMethods(a: TodoAction): (b: Behaviour<Todo, NewTodo>)
    ensures b.validateTask.None? && b.updateTask.Some?
  {
    NoMethods<Todo, NewTodo>().(
      updateTask := Some((pn: ProcessName, t: Task<Todo>, store: TR.Store<Todo>) => Move(a, t, store)))
  }

  /** `DefaultUpdateOperator`: no gate, and the payload update. */
  function DefaultUpdateMethods(): (b: Behaviour<Todo, NewTodo>)
    ensures b.isOperationValid.None? && b.updateWithPayload.Some?
  {
    NoMethods<Todo, NewTodo>().(
      updateWithPayload := Some((t: Task<Todo>, p: Todo, store: TR.Store<Todo>) => DefaultUpdate(t, p, store)))
  }

  /** `OperatorProhibitingUpdate`: a gate that always refuses, and an update that always throws. */
  function ProhibitingUpdateMethods(): (b: Behaviour<Todo, NewTodo>)
    ensures b.isOperationValid.Some? && b.updateWithPayload.Some?
    ensures forall t :: b.isOperationValid.value(t) == Invalid(Some(UpdatingIsProhibited(t.status)))
    ensures forall t, p, store :: b.updateWithPayload.value(t, p, store) == (store, Failure(Thrown(UpdatingIsProhibited(t.status))))
  {
    NoMethods<Todo, NewTodo>().(
      isOperationValid := Some((t: Task<Todo>) => Invalid(Some(UpdatingIsProhibited(t.status)))),
      updateWithPayload := Some((t: Task<Todo>, p: Todo, store: TR.Store<Todo>) => (store, Failure(Thrown(UpdatingIsProhibited(t.status))))))
  }

  /** `OperatorProhibitingRead`: a gate that always refuses. */
  function ProhibitingReadMethods(): (b: Behaviour<Todo, NewTodo>)
    ensures b.isOperationValid.Some?
    ensures forall t :: b.isOperationValid.value(t) == Invalid(Some(ReadIsProhibited(t.status)))
  {
    NoMethods<Todo, NewTodo>().(
      isOperationValid := Some((t: Task<Todo>) => Invalid(Some(ReadIsProhibited(t.status)))))
  }

  /** Every Todo class with its methods. */
  function Methods(now: nat): map<ClassId, Behaviour<Todo, NewTodo>> {
    map[
      InitialTodoClass := InitialMethods(now),
      ActionClassOf(ToWorkAction) := ActionMethods(ToWorkAction),
      ActionClassOf(HoldAction) := ActionMethods(HoldAction),
      ActionClassOf(CompleteAction) := ActionMethods(CompleteAction),
      ActionClassOf(CloseAction) := ActionMethods(CloseAction),
      DefaultUpdateClass := DefaultUpdateMethods(),
      ProhibitingUpdateClass := ProhibitingUpdateMethods(),
      ProhibitingReadClass := ProhibitingReadMethods()]
  }

  // ---- the backend's metadata ----

  /** `@InitialAction` and the four `@Action`s, in the order the actions module lists them. */
  function ActionClasses(): seq<ActionClass> {
    [ ActionClass(InitialTodoClass, Some(ActionMeta(TodoProcessName, InitialKind))),
      ActionClass(ActionClassOf(ToWorkAction), Some(ActionMeta(TodoProcessName, Act(ToWork, [(NewStatus, InProgressStatus), (HoldingStatus, InProgressStatus)])))),
      ActionClass(ActionClassOf(CloseAction), Some(ActionMeta(TodoProcessName, Act(Close, [(NewStatus, ClosedStatus), (CompletedStatus, ClosedStatus)])))),
      ActionClass(ActionClassOf(HoldAction), Some(ActionMeta(TodoProcessName, Act(Hold, [(InProgressStatus, HoldingStatus)])))),
      ActionClass(ActionClassOf(CompleteAction), Some(ActionMeta(TodoProcessName, Act(Complete, [(InProgressStatus, CompletedStatus)])))) ]
  }

  /** The five `@Step`s: the closed one prohibits update and read, the others update by default. */
  function StepClasses(): seq<StepClass> {
    [ StepClass("NewStep", Some(StepMeta(TodoProcessName, NewStatus, Some(DefaultUpdateClass), None))),
      StepClass("InProgressStep", Some(StepMeta(TodoProcessName, InProgressStatus, Some(DefaultUpdateClass), None))),
      StepClass("HoldingStep", Some(StepMeta(TodoProcessName, HoldingStatus, Some(DefaultUpdateClass), None))),
      StepClass("CompletedStep", Some(StepMeta(TodoProcessName, CompletedStatus, Some(DefaultUpdateClass), None))),
      StepClass("ClosedStep", Some(StepMeta(TodoProcessName, ClosedStatus, Some(ProhibitingUpdateClass), Some(ProhibitingReadClass)))) ]
  }

  /** The declarations the four actions make, in module order. */
  function Declarations(): seq<Declaration> {
    [ Declaration(ToWork, [(NewStatus, InProgressStatus), (HoldingStatus, InProgressStatus)]),
      Declaration(Close, [(NewStatus, ClosedStatus), (CompletedStatus, ClosedStatus)]),
      Declaration(Hold, [(InProgressStatus, HoldingStatus)]),
      Declaration(Complete, [(InProgressStatus, CompletedStatus)]) ]
  }

  /** The initial action declares nothing; each other action its own relations. */
  lemma ActionsDeclare()
    ensures DeclarationsOf(ActionClasses()) == Declarations()
  {
    var acts := ActionClasses();
    assert DeclarationsOf(acts[4..]) == Declarations()[3..] by {
      assert acts[4..][1..] == [];
    }
    assert acts[3..][1..] == acts[4..];
    assert acts[2..][1..] == acts[3..];
    assert acts[1..][1..] == acts[2..];
  }

  /** The statuses and commands of the demo are pairwise distinct. */
  lemma NamesDistinct()
    ensures forall i, j :: 0 <= i < j < |Statuses| ==> Statuses[i] != Statuses[j]
    ensures ToWork != Close && ToWork != Hold && ToWork != Complete && Close != Hold && Close != Complete && Hold != Complete
  {
    assert |NewStatus| == 3 && |InProgressStatus| == 11 && |HoldingStatus| == 7 && |CompletedStatus| == 9 && |ClosedStatus| == 6;
    assert |ToWork| == 7 && |Close| == 5 && |Hold| == 4 && |Complete| == 8;
  }

  /** The declared relations, one triple per pair, in declaration order. */
  lemma DeclaredRelations()
    ensures RelationsOf(Declarations()) == [
      RelationSpec(NewStatus, InProgressStatus, ToWork), RelationSpec(HoldingStatus, InProgressStatus, ToWork),
      RelationSpec(NewStatus, ClosedStatus, Close), RelationSpec(CompletedStatus, ClosedStatus, Close),
      RelationSpec(InProgressStatus, HoldingStatus, Hold), RelationSpec(InProgressStatus, CompletedStatus, Complete)]
  {
    var ds := Declarations();
    assert RelationsOf(ds[3..]) == [RelationSpec(InProgressStatus, CompletedStatus, Complete)] by {
      assert ds[3..][1..] == [];
    }
    assert ds[2..][1..] == ds[3..];
    assert ds[1..][1..] == ds[2..];
    assert ds[0].relations[1..][1..] == [];
    assert ds[1].relations[1..][1..] == [];
  }

  /** The statuses the declarations mention: exactly the five. */
  lemma MentionedStatuses(s: string)
    ensures s in StatusesOf(Declarations()) <==> s in Statuses
  {
    var ds := Declarations();
    assert ds[0].relations[1..][1..] == [] && ds[1].relations[1..][1..] == [];
    assert ds[2].relations[1..] == [] && ds[3].relations[1..] == [];
    assert PairStatuses(ds[0].relations[1..]) == [HoldingStatus, InProgressStatus];
    assert PairStatuses(ds[1].relations[1..]) == [CompletedStatus, ClosedStatus];
    var p0 := PairStatuses(ds[0].relations);
    var p1 := PairStatuses(ds[1].relations);
    var p2 := PairStatuses(ds[2].relations);
    var p3 := PairStatuses(ds[3].relations);
    assert p0 == [NewStatus, InProgressStatus, HoldingStatus, InProgressStatus];
    assert p1 == [NewStatus, ClosedStatus, CompletedStatus, ClosedStatus];
    assert p2 == [InProgressStatus, HoldingStatus];
    assert p3 == [InProgressStatus, CompletedStatus];
    assert ds[3..][1..] == [] && ds[2..][1..] == ds[3..] && ds[1..][1..] == ds[2..];
    assert StatusesOf(ds[3..]) == p3;
    assert StatusesOf(ds) == p0 + (p1 + (p2 + p3));
  }

  /**
   * The commands a todo graph offers at each status, as the demo's
   * documentation and tests list them: the reference the built graphs are
   * checked against. `closed` offers nothing.
   */
  function BackendOffers(s: string): seq<string> {
    if s == NewStatus then [ToWork, Close]
    else if s == InProgressStatus then [Hold, Complete]
    else if s == HoldingStatus then [ToWork]
    else if s == CompletedStatus then [Close]
    else []
  }

  /** The declared commands leaving each status are the documented ones. */
  lemma LeavingEachStatus(s: string)
    requires s in Statuses
    ensures CommandsLeaving(RelationsOf(Declarations()), s) == BackendOffers(s)
  {
    DeclaredRelations();
    NamesDistinct();
    var rs := RelationsOf(Declarations());
    assert rs[5..][1..] == [];
    assert rs[4..][1..] == rs[5..];
    assert rs[3..][1..] == rs[4..];
    assert rs[2..][1..] == rs[3..];
    assert rs[1..][1..] == rs[2..];
  }

  /** The backend process as the builder makes it from the declarations, on an empty process. */
  function BackendProcess(e: Edition): Result<PS.Process, Error> {
    StepsAndRelations(PS.Process(e, TodoProcessName, Empty()), Declarations())
  }

  /**
   * Built from the declarations, the backend process exists, and offers at
   * each of the five statuses exactly the documented commands, in
   * declaration order: `new` [to-work, close], `in-progress` [hold,
   * complete], `holding` [to-work], `completed` [close], `closed` none. Any
   * other status is unknown.
   */
  lemma BackendCommands(e: Edition, s: string)
    ensures BackendProcess(e).Success? && Inv(BackendProcess(e).value)
    ensures s in Statuses ==> GetAvailableStatusCommands(BackendProcess(e).value, s) == Success(BackendOffers(s))
    ensures s !in Statuses ==> GetAvailableStatusCommands(BackendProcess(e).value, s).Failure?
  {
    BackendBuilds(e);
    var p0 := PS.Process(e, TodoProcessName, Empty());
    var ds := Declarations();
    assert !HasStatus(p0, s);
    assert s in StatusesOf(ds) <==> s in Statuses by {
      MentionedStatuses(s);
    }
    DeclaredCommands(p0, ds, s);
    if s in Statuses {
      LeavingEachStatus(s);
    }
  }

  /** The declared pairs are distinct, so the build from the declarations succeeds. */
  lemma BackendBuilds(e: Edition)
    ensures BackendProcess(e).Success? && Inv(BackendProcess(e).value)
  {
    var p0 := PS.Process(e, TodoProcessName, Empty());
    var ds := Declarations();
    DeclaredPairsDistinct();
    StepsAndRelationsSucceeds(p0, ds);
  }

  /** No two declared relations join the same ordered pair of statuses. */
  lemma DeclaredPairsDistinct()
    ensures PairsDistinct(RelationsOf(Declarations()))
  {
    DeclaredRelations();
    NamesDistinct();
  }

  // ---- the sandbox's hand wiring ----

  /** `addSteps('new', 'closed', 'in-progress', 'holding', 'completed')`. */
  const SandboxStatuses: seq<string> := [NewStatus, ClosedStatus, InProgressStatus, HoldingStatus, CompletedStatus]

  /** The five `addRelations` triples: no `completed` → `closed` among them. */
  const SandboxRelations: seq<RelationSpec> := [
    RelationSpec(NewStatus, InProgressStatus, ToWork),
    RelationSpec(NewStatus, ClosedStatus, Close),
    RelationSpec(InProgressStatus, HoldingStatus, Hold),
    RelationSpec(HoldingStatus, InProgressStatus, ToWork),
    RelationSpec(InProgressStatus, CompletedStatus, Complete)]

  /** The sandbox's process pipe, run on the factory's empty process. */
  function SandboxProcess(e: Edition): (r: Result<PS.Process, Error>)
    ensures r.Success? && |r.value.graph.nodes| == 5 && |r.value.graph.edges| == 5
  {
    var p0 := PS.Process(e, TodoProcessName, Empty());
    var b := Pipe(Create(), [AddSteps(SandboxStatuses), AddRelations(SandboxRelations)]);
    assert b.operators == [AddSteps(SandboxStatuses), AddRelations(SandboxRelations)];
    var r := Build(b, p0);
    assert r.Success? && |r.value.graph.nodes| == 5 && |r.value.graph.edges| == 5 by {
      ApplyTwo(p0, AddSteps(SandboxStatuses), AddRelations(SandboxRelations));
      SandboxSteps(e);
      SandboxRelationsJoin(AddStepsTo(p0, SandboxStatuses).value);
    }
    r
  }

  /** The commands the hand-wired graph offers: the backend's, except that `completed` offers none. */
  function SandboxOffers(s: string): seq<string> {
    if s == CompletedStatus then [] else BackendOffers(s)
  }

  /** The triples leaving each status are the sandbox's offers. */
  lemma SandboxLeavingEachStatus(s: string)
    requires s in Statuses
    ensures CommandsLeaving(SandboxRelations, s) == SandboxOffers(s)
  {
    NamesDistinct();
    var rs := SandboxRelations;
    assert rs[4..][1..] == [] && rs[3..][1..] == rs[4..] && rs[2..][1..] == rs[3..] && rs[1..][1..] == rs[2..];
    var c4 := CommandsLeaving(rs[4..], s);
    var c3 := CommandsLeaving(rs[3..], s);
    var c2 := CommandsLeaving(rs[2..], s);
    var c1 := CommandsLeaving(rs[1..], s);
    assert c4 == if s == InProgressStatus then [Complete] else [];
    assert c3 == (if s == HoldingStatus then [ToWork] else []) + c4;
    assert c2 == (if s == InProgressStatus then [Hold] else []) + c3;
    assert c1 == (if s == NewStatus then [Close] else []) + c2;
    assert CommandsLeaving(rs, s) == (if s == NewStatus then [ToWork] else []) + c1;
  }

  /** The sandbox's steps phase: five steps, one per status, and no relation yet. */
  lemma SandboxSteps(e: Edition)
    ensures var p1 := AddStepsTo(PS.Process(e, TodoProcessName, Empty()), SandboxStatuses).value;
      && Inv(p1) && |p1.graph.nodes| == 5 && |p1.graph.edges| == 0
      && forall t :: t in Statuses ==> HasStatus(p1, t)
  {
    var p0 := PS.Process(e, TodoProcessName, Empty());
    AddStepsAppends(p0, SandboxStatuses);
    forall t | t in Statuses ensures HasStatus(AddStepsTo(p0, SandboxStatuses).value, t) {
      AddedStatuses(p0, SandboxStatuses, t);
    }
  }

  /** On those steps, the five distinct sandbox triples are all accepted. */
  lemma SandboxRelationsJoin(p1: PS.Process)
    requires Inv(p1) && |p1.graph.edges| == 0 && forall t :: t in Statuses ==> HasStatus(p1, t)
    ensures AddRelationsTo(p1, SandboxRelations).Success?
    ensures var q := AddRelationsTo(p1, SandboxRelations).value;
      q.graph.nodes == p1.graph.nodes && |q.graph.edges| == 5
  {
    var rs := SandboxRelations;
    assert Joinable(p1, rs);
    assert PairsDistinct(rs) by { NamesDistinct(); }
    NoRelationsFresh(p1, rs);
    AddRelationsAppends(p1, rs);
  }

  /**
   * The sandbox pipe adds five steps and five relations, and offers
   * `new` [to-work, close], `in-progress` [hold, complete], `holding`
   * [to-work]; `completed` and `closed` offer nothing, so a completed todo
   * can never be closed there.
   */
  lemma SandboxCommands(e: Edition, s: string)
    ensures s in Statuses ==> GetAvailableStatusCommands(SandboxProcess(e).value, s) == Success(SandboxOffers(s))
  {
    var p0 := PS.Process(e, TodoProcessName, Empty());
    ApplyTwo(p0, AddSteps(SandboxStatuses), AddRelations(SandboxRelations));
    assert Pipe(Create(), [AddSteps(SandboxStatuses), AddRelations(SandboxRelations)]).operators
      == [AddSteps(SandboxStatuses), AddRelations(SandboxRelations)];
    SandboxSteps(e);
    var p1 := AddStepsTo(p0, SandboxStatuses).value;
    SandboxRelationsJoin(p1);
    var q := AddRelationsTo(p1, SandboxRelations).value;
    assert SandboxProcess(e) == Success(q);
    if s in Statuses {
      NoRelationsNoCommands(p1, s);
      AvailableAfterRelations(p1, SandboxRelations, s);
      SandboxLeavingEachStatus(s);
      assert [] + SandboxOffers(s) == SandboxOffers(s);
    }
  }

  /** The sandbox's four `addActions` pairs; no initial action among them. */
  const SandboxActions: seq<(string, ClassId)> := [
    (ToWork, ActionClassOf(ToWorkAction)), (Close, ActionClassOf(CloseAction)),
    (Hold, ActionClassOf(HoldAction)), (Complete, ActionClassOf(CompleteAction))]

  /** `addActionContext()`: the `ActionContext` class as a singleton. */
  function AddActionContext(): Operator<Context> {
    AddLegacySingleton(ActionContextClass)
  }

  /**
   * The sandbox's container: `ActionContext`, then the four actions. It
   * builds, and holds exactly those two singletons and the four commands.
   */
  function SandboxContext(): (r: Result<Context, Error>)
    ensures r.Success? && r.value.lineage == Legacy && r.value.cache == New(Legacy).cache
    ensures r.Success? ==> r.value.singletons.Keys == {OfType(ContextClass), OfType(ActionContextClass)}
    ensures r.Success? ==> r.value.transients.Keys == set k | 0 <= k < |SandboxActions| :: Named(SandboxActions[k].0)
    ensures r.Success? ==> forall k :: 0 <= k < |SandboxActions| ==> r.value.transients[Named(SandboxActions[k].0)] == SandboxActions[k].1
  {
    var c0 := New(Legacy);
    var r := BuildLegacy(Pipe(Create(), [AddActionContext(), AddActions(SandboxActions)]));
    assert r == Apply(c0, [AddActionContext(), AddActions(SandboxActions)]) by {
      assert Pipe(Create(), [AddActionContext(), AddActions(SandboxActions)]).operators == [AddActionContext(), AddActions(SandboxActions)];
    }
    ApplyTwo(c0, AddActionContext(), AddActions(SandboxActions));
    SandboxActionContext();
    SandboxNames();
    var c1 := AddActionContext()(c0).value;
    assert c1.cache == c0.cache;
    r
  }

  /** `addActionContext()` on a fresh legacy container adds one singleton and no transient. */
  lemma SandboxActionContext()
    ensures var r := AddActionContext()(New(Legacy));
      && r.Success? && r.value.lineage == Legacy && r.value.transients == map[]
      && r.value.singletons.Keys == {OfType(ContextClass), OfType(ActionContextClass)}
  {
    assert ActionContextClass != ContextClass;
  }

  /** The sandbox's four commands are distinct, and none is the initial-action token's name. */
  lemma SandboxNames()
    ensures forall i, j :: 0 <= i < j < |SandboxActions| ==> SandboxActions[i].0 != SandboxActions[j].0
    ensures forall k :: 0 <= k < |SandboxActions| ==> SandboxActions[k].0 != InitialActionCommand
  {
    NamesDistinct();
    assert |InitialActionCommand| == 21;
  }

  /**
   * With no initial action in its container, the sandbox process (an older
   * edition) cannot validate or create a task: both fail with 'Initial
   * command not found' and change nothing.
   */
  lemma SandboxCannotCreate<IS>(env: Env<Todo, IS>, p: PS.Process, w: World<Todo>, state: IS)
    requires SandboxContext() == Success(w.ctx) && p.edition != CoreEdition
    ensures ValidateInitialState(env, p, w, state) == (w, Failure(Thrown("Initial command not found")))
    ensures CreateInitialTask(env, p, w, state) == (w, Failure(Thrown("Initial command not found")))
  {
    SandboxNames();
  }

  // ---- the sandbox's own action and step classes ----

  /** The sandbox's repository class, which its classes inject by class rather than by token. */
  const TodoRepositoryClass: ClassId := "TodoTaskRepository"

  /**
   * A sandbox action's `updateTask(task)`: the task is written back with
   * the action's status and the re-read is returned as it comes, possibly
   * null. An unknown task fails with the repository's 'Task not found' and
   * writes nothing; a known one re-reads as the task just written.
   */
  function SandboxMove(a: TodoAction, task: Task<Todo>, store: TR.Store<Todo>): (r: (TR.Store<Todo>, Result<Option<Task<Todo>>, Error>))
    ensures r.1.Success? <==> TR.GetTask(store, task.id).Some?
    ensures r.1.Failure? ==> r.0 == store && r.1.error == Thrown("Task not found")
    ensures r.1.Success? ==> r.1.value == Some(task.(status := TargetStatus(a)))
    ensures r.1.Success? ==> TR.UpdateTask(store, task.(status := TargetStatus(a))) == Success(r.0)
  {
    var moved := task.(status := TargetStatus(a));
    match TR.UpdateTask(store, moved)
    case Failure(e) => (store, Failure(e))
    case Success(store') =>
      TR.GetAfterUpdate(store, moved);
      (store', Success(TR.GetTask(store', task.id)))
  }

  /**
   * Dropping `cleanTask` changes nothing observable: the sandbox and the
   * backend action write the same repository, fail in the same cases with
   * the same error, and the sandbox's re-read is never null.
   */
  lemma SandboxMoveIsMove(a: TodoAction, task: Task<Todo>, store: TR.Store<Todo>)
    ensures SandboxMove(a, task, store).0 == Move(a, task, store).0
    ensures SandboxMove(a, task, store).1.Success? <==> Move(a, task, store).1.Success?
    ensures Move(a, task, store).1.Success? ==> SandboxMove(a, task, store).1.value == Some(Move(a, task, store).1.value)
    ensures Move(a, task, store).1.Failure? ==> SandboxMove(a, task, store).1.error == Move(a, task, store).1.error
  {
  }

  /**
   * The sandbox's injections: every action class and `DefaultUpdateOperator`
   * take the repository as their first constructor argument, by class.
   */
  function SandboxClasses(): (classes: ClassTable)
    ensures forall k :: 0 <= k < |SandboxActions| ==> SandboxActions[k].1 in classes
  {
    var slots := IJ.Inject(None, 0, OfType(TodoRepositoryClass));
    map[
      InitialTodoClass := slots,
      ActionClassOf(ToWorkAction) := slots,
      ActionClassOf(HoldAction) := slots,
      ActionClassOf(CompleteAction) := slots,
      ActionClassOf(CloseAction) := slots,
      DefaultUpdateClass := slots]
  }

  /** The sandbox's action classes are built with exactly the repository as argument. */
  lemma SandboxInjections(k: nat)
    requires k < |SandboxActions|
    ensures Injected(SandboxClasses(), SandboxActions[k].1) == [OfType(TodoRepositoryClass)]
  {
    IJ.OneInjection(OfType(TodoRepositoryClass));
  }

  /**
   * None of the four sandbox actions can be built in the sandbox's own
   * container: each injects the repository by class, which is not
   * registered there, so resolving its command fails with the older
   * lineage's missing-type error (or, with no depth left, too deep).
   */
  lemma SandboxActionsUnresolvable(k: nat, fuel: nat)
    requires k < |SandboxActions|
    ensures SandboxContext().Success?
    ensures Resolve(SandboxClasses(), SandboxContext().value, Named(SandboxActions[k].0), fuel).1
      == Failure(if fuel == 0 then DependencyTooDeep else TypeDoesNotExist)
  {
    SandboxInjections(k);
    var c := SandboxContext().value;
    var classes := SandboxClasses();
    var t := OfType(TodoRepositoryClass);
    var cmd := Named(SandboxActions[k].0);
    var cls := SandboxActions[k].1;
    assert cmd !in c.singletons && cmd in c.transients && c.transients[cmd] == cls;
    if fuel > 0 {
      assert Resolve(classes, c, t, fuel - 1) == (c, Failure(TypeDoesNotExist));
      assert ResolveAll(classes, c, [t], fuel - 1).1 == Failure(TypeDoesNotExist);
      assert Construct(classes, c, cls, fuel).1 == Failure(TypeDoesNotExist);
    }
  }

  /**
   * The steps module: one `@Step` per status, in the order of `Statuses`;
   * every step updates through `DefaultUpdateOperator` except `closed`,
   * which prohibits updating, and only `closed` has a read operator.
   */
  lemma StepsModuleShape()
    ensures |StepClasses()| == |Statuses|
    ensures forall k :: 0 <= k < |Statuses| ==>
      var m := StepClasses()[k].meta;
      && m.Some? && m.value.processName == TodoProcessName && m.value.status == Statuses[k]
      && m.value.updateOperator == Some(if Statuses[k] == ClosedStatus then ProhibitingUpdateClass else DefaultUpdateClass)
      && (m.value.readOperator.Some? <==> Statuses[k] == ClosedStatus)
      && (m.value.readOperator.Some? ==> m.value.readOperator.value == ProhibitingReadClass)
  {
  }
}
