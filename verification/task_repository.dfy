/**
 * `InMemoryTaskRepository` and the sandbox's `TodoTaskRepository`: a
 * sequence of tasks and an id counter. Both store and hand out values, so
 * the defensive copies of the first one have nothing to protect here.
 */
module TaskRepository {
  import opened Wrappers
  import opened Common
  import opened Decimal

  /** The `TASK_REPOSITORY_TOKEN` under which a module provides its repository. */
  const TaskRepositoryToken: string := "__task_repository__"

  datatype Store<P> = Store(tasks: seq<Task<P>>, counter: nat)

  /** `Number(tasks[tasks.length - 1]?.id)`, with NaN as `None`. */
  function LastNumericId<P>(tasks: seq<Task<P>>): (r: Option<nat>)
    ensures |tasks| == 0 ==> r.None?
    ensures |tasks| > 0 ==> r == JsNumber(tasks[|tasks| - 1].id)
  {
    if |tasks| == 0 then None else JsNumber(tasks[|tasks| - 1].id)
  }

  /**
   * The `InMemoryTaskRepository` constructor: the counter continues after
   * the numeric id of the last seeded task, and starts at 0 when there is no
   * task or that id is not a number.
   */
  function Seeded<P>(tasks: seq<Task<P>>): (s: Store<P>)
    ensures s.tasks == tasks
    ensures LastNumericId(tasks).Some? ==> s.counter == LastNumericId(tasks).value + 1
    ensures LastNumericId(tasks).None? ==> s.counter == 0
  {
    Store(tasks, match LastNumericId(tasks) case Some(n) => n + 1 case None => 0)
  }

  /** The `TodoTaskRepository` constructor: the counter starts at 0 whatever is seeded. */
  function SandboxSeeded<P>(tasks: seq<Task<P>>): (s: Store<P>)
    ensures s.tasks == tasks && s.counter == 0
  {
    Store(tasks, 0)
  }

  /** Index of the first task with that id. */
  function Find<P>(tasks: seq<Task<P>>, id: string): (r: Option<nat>)
    ensures r.Some? ==> r.value < |tasks| && tasks[r.value].id == id
    ensures r.Some? ==> forall k :: 0 <= k < r.value ==> tasks[k].id != id
    ensures r.None? ==> forall k :: 0 <= k < |tasks| ==> tasks[k].id != id
  {
    if |tasks| == 0 then None
    else if tasks[0].id == id then Some(0)
    else match Find(tasks[1..], id)
      case None => None
      case Some(i) => Some(i + 1)
  }

  /** `getTask(id)`: the first task with that id, or null. */
  function GetTask<P>(s: Store<P>, id: string): (r: Option<Task<P>>)
    ensures r.None? <==> forall k :: 0 <= k < |s.tasks| ==> s.tasks[k].id != id
    ensures r.Some? ==> exists k :: (0 <= k < |s.tasks| && s.tasks[k] == r.value && r.value.id == id &&
      (forall j :: 0 <= j < k ==> s.tasks[j].id != id))
  {
    match Find(s.tasks, id)
    case None => None
    case Some(i) => Some(s.tasks[i])
  }

  /**
   * `addTask(task)`: the incoming id is ignored; the task is stored, last,
   * under `String(counter)`, the counter moves on, and the stored task is
   * returned.
   */
  function AddTask<P>(s: Store<P>, t: Task<P>): (r: (Store<P>, Task<P>))
    ensures r.1 == t.(id := NatToString(s.counter))
    ensures r.0.tasks == s.tasks + [r.1]
    ensures r.0.counter == s.counter + 1
  {
    var stored := t.(id := NatToString(s.counter));
    (Store(s.tasks + [stored], s.counter + 1), stored)
  }

  /**
   * `updateTask(task)`: the first task with the same id is replaced in
   * place; an unknown id fails with 'Task not found'.
   */
  function UpdateTask<P>(s: Store<P>, t: Task<P>): (r: Result<Store<P>, Error>)
    ensures r.Failure? <==> forall k :: 0 <= k < |s.tasks| ==> s.tasks[k].id != t.id
    ensures r.Failure? ==> r.error == Thrown("Task not found")
    ensures r.Success? ==> r.value.counter == s.counter && |r.value.tasks| == |s.tasks|
    ensures r.Success? ==> exists k :: (0 <= k < |s.tasks| && s.tasks[k].id == t.id &&
      (forall j :: 0 <= j < k ==> s.tasks[j].id != t.id) &&
      r.value.tasks == s.tasks[k := t])
  {
    match Find(s.tasks, t.id)
    case None => Failure(Thrown("Task not found"))
    case Some(i) => Success(s.(tasks := s.tasks[i := t]))
  }

  /** `reset()`: no task, and ids restart at "0". */
  function Reset<P>(s: Store<P>): (r: Store<P>)
    ensures r.tasks == [] && r.counter == 0
  {
    Store([], 0)
  }

  /** After a reset, nothing is found and the next task gets id "0". */
  lemma ResetRestartsIds<P>(s: Store<P>, t: Task<P>, id: string)
    ensures GetTask(Reset(s), id).None?
    ensures AddTask(Reset(s), t).1.id == "0"
  {
    assert NatToString(0) == "0";
  }

  /** Every numeric task id is below the counter, so the counter's next ids are unused. */
  ghost predicate IdsBelowCounter<P>(s: Store<P>) {
    forall k :: 0 <= k < |s.tasks| && JsNumber(s.tasks[k].id).Some? ==> JsNumber(s.tasks[k].id).value < s.counter
  }

  /** Adding and updating keep the counter ahead of every numeric id. */
  lemma AddKeepsIdsBelow<P>(s: Store<P>, t: Task<P>)
    requires IdsBelowCounter(s)
    ensures IdsBelowCounter(AddTask(s, t).0)
  {
    JsNumberOfNatToString(s.counter);
  }

  lemma UpdateKeepsIdsBelow<P>(s: Store<P>, t: Task<P>)
    requires IdsBelowCounter(s) && UpdateTask(s, t).Success?
    ensures IdsBelowCounter(UpdateTask(s, t).value)
  {
    var k :| 0 <= k < |s.tasks| && s.tasks[k].id == t.id && UpdateTask(s, t).value.tasks == s.tasks[k := t];
  }

  /**
   * Round trip: while the counter is ahead of every numeric id, a task just
   * added is what `getTask` returns for its new id, and no earlier task had
   * that id.
   */
  lemma GetAfterAdd<P>(s: Store<P>, t: Task<P>)
    requires IdsBelowCounter(s)
    ensures var (s', stored) := AddTask(s, t);
      && (forall k :: 0 <= k < |s.tasks| ==> s.tasks[k].id != stored.id)
      && GetTask(s', stored.id) == Some(stored)
  {
    var (s', stored) := AddTask(s, t);
    JsNumberOfNatToString(s.counter);
    assert forall k :: 0 <= k < |s.tasks| ==> s.tasks[k].id != stored.id;
    FindIsFirst(s'.tasks, stored.id, |s.tasks|);
  }

  /** Round trip: after a successful update, `getTask` returns the new version. */
  lemma GetAfterUpdate<P>(s: Store<P>, t: Task<P>)
    requires UpdateTask(s, t).Success?
    ensures GetTask(UpdateTask(s, t).value, t.id) == Some(t)
  {
    var k :| 0 <= k < |s.tasks| && s.tasks[k].id == t.id &&
      (forall j :: 0 <= j < k ==> s.tasks[j].id != t.id) && UpdateTask(s, t).value.tasks == s.tasks[k := t];
    var s' := UpdateTask(s, t).value;
    assert Find(s'.tasks, t.id) == Some(k) by {
      FindIsFirst(s'.tasks, t.id, k);
    }
  }

  /** The first position holding an id is what `Find` answers. */
  lemma {:induction false} FindIsFirst<P>(tasks: seq<Task<P>>, id: string, k: nat)
    requires k < |tasks| && tasks[k].id == id
    requires forall j :: 0 <= j < k ==> tasks[j].id != id
    ensures Find(tasks, id) == Some(k)
  {
    if k > 0 {
      FindIsFirst(tasks[1..], id, k - 1);
    }
  }

  /**
   * A seeding whose last id is the largest numeric id keeps the counter
   * ahead of every id, so the round trip above holds from the start.
   */
  lemma SeededIdsBelow<P>(tasks: seq<Task<P>>)
    requires LastNumericId(tasks).Some?
    requires forall k :: 0 <= k < |tasks| && JsNumber(tasks[k].id).Some? ==>
      JsNumber(tasks[k].id).value <= LastNumericId(tasks).value
    ensures IdsBelowCounter(Seeded(tasks))
  {
  }

  /**
   * The sandbox repository ignores its seed when numbering: seeded with a
   * task "0", its first added task also gets "0", and `getTask("0")` then
   * answers the seeded task, not the added one.
   */
  lemma SandboxSeedShadowsFirstAdd<P>(seed: Task<P>, t: Task<P>)
    requires seed.id == "0" && t.payload != seed.payload
    ensures var (s', stored) := AddTask(SandboxSeeded([seed]), t);
      stored.id == "0" && GetTask(s', "0") == Some(seed) != Some(stored)
  {
    var (s', stored) := AddTask(SandboxSeeded([seed]), t);
    assert NatToString(0) == "0";
    assert s'.tasks[0] == seed;
  }
}
