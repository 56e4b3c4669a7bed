/**
 * What the engine calls on the objects it resolves: actions, initial
 * actions, and update and read operators. Their business logic is not part
 * of the engine, so each class contributes a table of optional methods,
 * left uninterpreted; a method the class does not define is `None`. The
 * state the methods act on is the task repository, threaded with the
 * container as the `World`.
 */
module Behaviours {
  import opened Wrappers
  import opened Common
  import opened Container
  import opened TaskRepository

  /** `INITIAL_ACTION_COMMAND`: the token under which the initial action is registered. */
  const InitialActionCommand: string := "create_initial_action"

  /** The container and the task repository every handler shares. */
  datatype World<P> = World(ctx: Context, store: Store<P>)

  /** The outcome of a handler that may write the repository and may throw. */
  type Outcome<P> = (Store<P>, Result<Task<P>, Error>)

  /**
   * The methods a class may define:
   * - `validateTask(task)` and `updateTask(task)` of an action (the latter
   *   also sees the `processName` the engine assigns before calling it);
   * - `validateInitialState(state)` and `createTask(state)` of an initial action;
   * - `isOperationValid(task)` of an update or read operator, and an update
   *   operator's `updateTask(task, payload)`.
   */
  datatype Behaviour<!P, !IS> = Behaviour(
    validateTask: Option<Task<P> -> ValidationState>,
    updateTask: Option<(ProcessName, Task<P>, Store<P>) -> Outcome<P>>,
    validateInitialState: Option<IS -> ValidationState>,
    createTask: Option<(ProcessName, IS, Store<P>) -> Outcome<P>>,
    isOperationValid: Option<Task<P> -> ValidationState>,
    updateWithPayload: Option<(Task<P>, P, Store<P>) -> Outcome<P>>)

  /** A class with none of the methods. */
  function NoMethods<P, IS>(): (b: Behaviour<P, IS>)
    ensures b.validateTask.None? && b.updateTask.None? && b.validateInitialState.None?
    ensures b.createTask.None? && b.isOperationValid.None? && b.updateWithPayload.None?
  {
    Behaviour(None, None, None, None, None, None)
  }

  /**
   * Everything resolution and dispatch depend on: each class's injection
   * slots, each class's methods, and the nesting bound of construction.
   */
  datatype Env<!P, !IS> = Env(classes: ClassTable, methods: map<ClassId, Behaviour<P, IS>>, fuel: nat)

  /** The methods of an instance's class; a class missing from the table has none. */
  function Of<P, IS>(env: Env<P, IS>, i: Instance): (b: Behaviour<P, IS>)
    ensures i.cls in env.methods ==> b == env.methods[i.cls]
    ensures i.cls !in env.methods ==> b == NoMethods()
  {
    if i.cls in env.methods then env.methods[i.cls] else NoMethods()
  }

  /** `getService(token)` against the world's container; the repository is untouched. */
  function ResolveIn<P, IS>(env: Env<P, IS>, w: World<P>, t: Token): (r: (World<P>, Result<Instance, Error>))
    ensures r.0.store == w.store && Extends(w.ctx, r.0.ctx)
    ensures r.1.Failure? ==> ResolutionError(r.1.error)
    ensures t !in w.ctx.singletons && t !in w.ctx.transients ==> r == (w, Failure(MissingError(w.ctx.lineage, t)))
  {
    var (c, res) := Resolve(env.classes, w.ctx, t, env.fuel);
    (w.(ctx := c), res)
  }

  /** `tryGetService(token)` against the world's container. */
  function TryResolveIn<P, IS>(env: Env<P, IS>, w: World<P>, t: Token): (r: (World<P>, Option<Instance>))
    ensures r.0 == ResolveIn(env, w, t).0
    ensures r.1 == ResolveIn(env, w, t).1.ToOption()
    ensures t !in w.ctx.singletons && t !in w.ctx.transients ==> r == (w, None)
  {
    var (w1, res) := ResolveIn(env, w, t);
    (w1, res.ToOption())
  }
}
