/**
 * The older lineage's operators that read the global store when they run:
 * a process's stored actions registered into a container under their
 * commands, and the steps and relations the stored declarations describe
 * added to a process. The store is passed in as the action table it holds
 * at that moment.
 */
module StoreOperators {
  import opened Wrappers
  import opened Common
  import opened Seqs
  import opened Graph
  import opened Container
  import opened Pipeline
  import opened Process
  import opened Metadata
  import ProcessBuilder
  import opened ActionOperators
  import opened GlobalStore

  /** Each stored action as the `(command, class)` pair `setInstance` receives. */
  function StoredPairs(actions: seq<StoredAction>): (ps: seq<(string, ClassId)>)
    ensures |ps| == |actions|
    ensures forall k :: 0 <= k < |actions| ==> ps[k] == (actions[k].command, actions[k].actionType)
  {
    if |actions| == 0 then [] else [(actions[0].command, actions[0].actionType)] + StoredPairs(actions[1..])
  }

  /**
   * `addActionsFromStore(processName)` run on a container: every stored
   * action of that process, in registration order, becomes a transient
   * under its command; a token already taken aborts with TYPE_EXISTS_ERROR.
   */
  function ActionsFromStoreTo(t: ActionTable, pn: ProcessName, c: Context): (r: Result<Context, Error>)
    ensures r.Failure? ==> r.error == TypeExists
    ensures r.Success? ==> r.value.singletons == c.singletons && r.value.cache == c.cache
  {
    ProcessBuilder.AddActionsTo(c, StoredPairs(ActionsIn(t, pn)))
  }

  /**
   * Since a process's stored commands are distinct, the operator fails
   * exactly when one of them is already a transient token of the container.
   */
  lemma ActionsFromStoreSucceeds(t: ActionTable, pn: ProcessName, c: Context)
    requires TableInv(t)
    ensures ActionsFromStoreTo(t, pn, c).Success? <==> forall a :: a in ActionsIn(t, pn) ==> Named(a.command) !in c.transients
  {
    var actions := ActionsIn(t, pn);
    var pairs := StoredPairs(actions);
    forall i, j | 0 <= i < j < |pairs| ensures pairs[i].0 != pairs[j].0 {
      assert pairs[i].0 == CommandsOf(actions)[i] && pairs[j].0 == CommandsOf(actions)[j];
    }
    forall a | a in actions ensures exists k :: 0 <= k < |pairs| && pairs[k].0 == a.command {
      var k :| 0 <= k < |actions| && actions[k] == a;
      assert pairs[k].0 == a.command;
    }
  }

  /**
   * A successful run registers each stored command with its action class,
   * keeps every earlier transient, and adds no other token.
   */
  lemma ActionsFromStoreRegisters(t: ActionTable, pn: ProcessName, c: Context)
    requires ActionsFromStoreTo(t, pn, c).Success?
    ensures var c1 := ActionsFromStoreTo(t, pn, c).value;
      && (forall a :: a in ActionsIn(t, pn) ==> Named(a.command) in c1.transients && c1.transients[Named(a.command)] == a.actionType)
      && (forall u :: u in c.transients ==> u in c1.transients && c1.transients[u] == c.transients[u])
      && (forall u :: u in c1.transients ==> u in c.transients || exists a :: a in ActionsIn(t, pn) && u == Named(a.command))
  {
    var actions := ActionsIn(t, pn);
    var pairs := StoredPairs(actions);
    var c1 := ActionsFromStoreTo(t, pn, c).value;
    forall a | a in actions ensures Named(a.command) in c1.transients && c1.transients[Named(a.command)] == a.actionType {
      var k :| 0 <= k < |actions| && actions[k] == a;
      assert pairs[k] == (a.command, a.actionType);
    }
    forall u | u in c1.transients && u !in c.transients ensures exists a :: a in actions && u == Named(a.command) {
      var k :| 0 <= k < |pairs| && u == Named(pairs[k].0);
      assert actions[k] in actions;
    }
  }

  /** `addActionsFromStore(processName)` of the process-builder folder: no guard. */
  function ActionsFromStore(t: ActionTable, pn: ProcessName): (op: Operator<Context>)
    ensures forall c :: op(c).Failure? ==> op(c).error == TypeExists
    ensures forall c :: op(c).Success? ==> op(c).value.singletons == c.singletons && op(c).value.cache == c.cache
  {
    c => ActionsFromStoreTo(t, pn, c)
  }

  /**
   * The guarded `addActionsFromStore(processName, firstImport, ...imports)`:
   * without a first import it throws when the operator is created;
   * otherwise the operator is the unguarded one. The rest parameter is
   * always an array, so only the first import is tested.
   */
  function ActionsFromStoreGuarded(t: ActionTable, pn: ProcessName, firstImport: Option<ClassId>): (r: Result<Operator<Context>, Error>)
    ensures r.Failure? <==> firstImport.None?
    ensures r.Failure? ==> r.error == Thrown("Imported actions not found")
    ensures r.Success? ==> forall c :: r.value(c) == ActionsFromStoreTo(t, pn, c)
  {
    if firstImport.None? then Failure(Thrown("Imported actions not found"))
    else Success(ActionsFromStore(t, pn))
  }

  /**
   * Registering an action for another process key (another version, say)
   * leaves what the operator registers for this process unchanged.
   */
  lemma OtherProcessesIgnored(t: ActionTable, m: StoredAction, pn: ProcessName, c: Context)
    requires FormatProcessName(pn) != FormatProcessName(m.processName)
    requires SetActionIn(t, m).Success?
    ensures ActionsFromStoreTo(SetActionIn(t, m).value, pn, c) == ActionsFromStoreTo(t, pn, c)
  {
  }

  /**
   * After the operator, asking the container for a stored command that is
   * not also a singleton token constructs the stored action class.
   */
  lemma StoredCommandResolves(classes: ClassTable, t: ActionTable, pn: ProcessName, c: Context, a: StoredAction, fuel: nat)
    requires ActionsFromStoreTo(t, pn, c).Success?
    requires a in ActionsIn(t, pn) && Named(a.command) !in c.singletons
    ensures var (_, r) := Resolve(classes, ActionsFromStoreTo(t, pn, c).value, Named(a.command), fuel);
      r.Success? ==> r.value.cls == a.actionType
  {
    var c1 := ActionsFromStoreTo(t, pn, c).value;
    ActionsFromStoreRegisters(t, pn, c);
    assert c1.transients[Named(a.command)] == a.actionType;
    assert Named(a.command) !in c1.singletons;
  }

  // ---- steps and relations ----

  /** Each stored action as the declaration of its command and pairs. */
  function StoredDeclarations(actions: seq<StoredAction>): (ds: seq<Declaration>)
    ensures |ds| == |actions|
    ensures forall k :: 0 <= k < |actions| ==> ds[k] == Declaration(actions[k].command, actions[k].relations)
  {
    if |actions| == 0 then [] else [Declaration(actions[0].command, actions[0].relations)] + StoredDeclarations(actions[1..])
  }

  /**
   * `addRelationsAndStepsFromStore()` run on a process: the actions stored
   * under the process's own name, then every distinct mentioned status as a
   * step and every declared pair as a relation labelled with its command.
   */
  function RelationsAndStepsFromStoreTo(t: ActionTable, p: Process): (r: Result<Process, Error>)
    ensures Inv(p) && r.Success? ==> Inv(r.value) && r.value.name == p.name && r.value.edition == p.edition
  {
    StepsAndRelations(p, StoredDeclarations(ActionsIn(t, p.name)))
  }

  function RelationsAndStepsFromStore(t: ActionTable): (op: Operator<Process>)
    ensures forall p :: Inv(p) && op(p).Success? ==>
      Inv(op(p).value) && op(p).value.name == p.name && op(p).value.edition == p.edition
  {
    p => RelationsAndStepsFromStoreTo(t, p)
  }

  /**
   * On a process with no relations yet, the stored declarations are
   * accepted exactly when no `(from, to)` pair is declared twice; otherwise
   * the build stops with EDGE_HAS_BEEN_ADDED.
   */
  lemma StoreRelationsSucceed(t: ActionTable, p: Process)
    requires Inv(p) && |p.graph.edges| == 0
    ensures var rs := RelationsOf(StoredDeclarations(ActionsIn(t, p.name)));
      RelationsAndStepsFromStoreTo(t, p).Success? <==> ProcessBuilder.PairsDistinct(rs)
    ensures RelationsAndStepsFromStoreTo(t, p).Failure? ==> RelationsAndStepsFromStoreTo(t, p).error == EdgeHasBeenAdded
  {
    var ds := StoredDeclarations(ActionsIn(t, p.name));
    assert RelationsAndStepsFromStoreTo(t, p) == StepsAndRelations(p, ds);
    StepsAndRelationsSucceeds(p, ds);
  }

  /**
   * Registered with `@Action` for one process, `activate` (from `active` to
   * `in-progress`) and `close` (from `active` to `closed`) give a fresh
   * process of that name the commands `['activate', 'close']` at `active`.
   */
  lemma StoreTwoActionsFromActive(e: Edition, name: ProcessName, activate: ClassId, close: ClassId)
    ensures var t1 := SetActionIn(ClearTable(), StoredAction("activate", name, [("active", "in-progress")], activate));
      && t1.Success?
      && var t2 := SetActionIn(t1.value, StoredAction("close", name, [("active", "closed")], close));
      && t2.Success?
      && var q := RelationsAndStepsFromStoreTo(t2.value, Process(e, name, Empty()));
      && q.Success?
      && GetAvailableStatusCommands(q.value, "active") == Success(["activate", "close"])
  {
    var a := StoredAction("activate", name, [("active", "in-progress")], activate);
    var b := StoredAction("close", name, [("active", "closed")], close);
    var t1 := SetActionIn(ClearTable(), a).value;
    assert ActionsIn(t1, name) == [a];
    assert "close" !in CommandsOf([a]) by {
      assert CommandsOf([a]) == ["activate"];
      assert |"close"| != |"activate"|;
    }
    var t2 := SetActionIn(t1, b).value;
    assert ActionsIn(t2, name) == [a, b];
    assert StoredDeclarations([a, b]) == ActivateAndClose();
    TwoActionsFromActive(e, name);
  }
}
