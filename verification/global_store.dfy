/**
 * The older lineage's global store of decorator metadata. For each process,
 * keyed by `formatProcessName` (`name_version`), it keeps the actions that
 * `@Action`/`@InitialAction` registered, in registration order, and (in the
 * richer of the two stores) the operators of each step by status. There are
 * two store classes, each kept under a symbol slot of its own on the global
 * object, so each is a separate object; both keep the same shape of action
 * table, which is what this module models once.
 */
module GlobalStore {
  import opened Wrappers
  import opened Common
  import opened Seqs
  import opened Behaviours

  /** `ActionMetadata`: the command, its process, the declared `(from, to)` pairs and the action class. */
  datatype StoredAction = StoredAction(command: string, processName: ProcessName, relations: seq<(string, string)>, actionType: ClassId)

  /** `StepMetadata`: the update and read operator classes of a step, each possibly null. */
  datatype StoredStep = StoredStep(updateOperator: Option<ClassId>, readOperator: Option<ClassId>)

  /** Per process key, the actions in registration order (a JavaScript `Map` keyed by command). */
  type ActionTable = map<string, seq<StoredAction>>

  /** Per status, the step's operators, in first-insertion order (a JavaScript `Map` keyed by status). */
  type StepTable = seq<(string, StoredStep)>

  function AlreadyAddedMessage(command: string, pn: ProcessName): string {
    "The action linked with " + command + " of the process \"" + pn.name + " " + pn.version + "\" has been already added to the global store"
  }

  function InitialExistsMessage(name: ClassId): string {
    "There is already initial action named " + name
  }

  function CommandsOf(actions: seq<StoredAction>): (cs: seq<string>)
    ensures |cs| == |actions|
    ensures forall k :: 0 <= k < |actions| ==> cs[k] == actions[k].command
  {
    if |actions| == 0 then [] else [actions[0].command] + CommandsOf(actions[1..])
  }

  lemma {:induction false} CommandsOfConcat(a: seq<StoredAction>, b: seq<StoredAction>)
    ensures CommandsOf(a + b) == CommandsOf(a) + CommandsOf(b)
  {
    if |a| == 0 {
      assert a + b == b;
    } else {
      assert (a + b)[1..] == a[1..] + b;
      CommandsOfConcat(a[1..], b);
    }
  }

  /** Each process's commands are distinct, and each entry sits under its own process's key. */
  ghost predicate TableInv(t: ActionTable) {
    forall key :: key in t ==>
      && NoDups(CommandsOf(t[key]))
      && forall a :: a in t[key] ==> FormatProcessName(a.processName) == key
  }

  // ---- the action table (both stores) ----

  /**
   * `getActionsMetadata(processName)`: the actions stored under the
   * process's key, or none. Every entry has the process's key, which is not
   * the same as having the process's name (see KeysCollide).
   */
  function ActionsIn(t: ActionTable, pn: ProcessName): (r: seq<StoredAction>)
    ensures TableInv(t) ==> NoDups(CommandsOf(r))
    ensures TableInv(t) ==> forall a :: a in r ==> FormatProcessName(a.processName) == FormatProcessName(pn)
  {
    var key := FormatProcessName(pn);
    if key in t then t[key] else []
  }

  /**
   * `setActionMetadata(metadata)`: appended under its process's key, unless
   * that process already has an action with the same command, which throws
   * the "already added" error and keeps the first entry.
   */
  function SetActionIn(t: ActionTable, m: StoredAction): (r: Result<ActionTable, Error>)
    ensures r.Success? <==> m.command !in CommandsOf(ActionsIn(t, m.processName))
    ensures r.Failure? ==> r.error == Thrown(AlreadyAddedMessage(m.command, m.processName))
    ensures r.Success? ==> ActionsIn(r.value, m.processName) == ActionsIn(t, m.processName) + [m]
    ensures r.Success? ==> forall pn :: FormatProcessName(pn) != FormatProcessName(m.processName) ==> ActionsIn(r.value, pn) == ActionsIn(t, pn)
  {
    var key := FormatProcessName(m.processName);
    var actions := ActionsIn(t, m.processName);
    if m.command in CommandsOf(actions) then Failure(Thrown(AlreadyAddedMessage(m.command, m.processName)))
    else Success(t[key := actions + [m]])
  }

  /** Registration keeps every process's commands distinct and every entry under its own key. */
  lemma SetActionKeepsInv(t: ActionTable, m: StoredAction)
    requires TableInv(t) && SetActionIn(t, m).Success?
    ensures TableInv(SetActionIn(t, m).value)
  {
    var key := FormatProcessName(m.processName);
    var actions := ActionsIn(t, m.processName);
    CommandsOfConcat(actions, [m]);
    NoDupsConcat(CommandsOf(actions), CommandsOf([m]));
  }

  /** `clear()` of the simple store: no process has actions any more. */
  function ClearTable(): (t: ActionTable)
    ensures TableInv(t)
    ensures forall pn :: ActionsIn(t, pn) == []
  {
    map[]
  }

  /** The first stored action with the command, if any (`actions.get(command) || null`). */
  function FindAction(actions: seq<StoredAction>, command: string): (r: Option<StoredAction>)
    ensures r.None? <==> command !in CommandsOf(actions)
    ensures r.Some? ==> r.value in actions && r.value.command == command
  {
    if |actions| == 0 then None
    else if actions[0].command == command then Some(actions[0])
    else
      assert CommandsOf(actions) == [actions[0].command] + CommandsOf(actions[1..]);
      FindAction(actions[1..], command)
  }

  /** An appended entry is found under its command, and only under it. */
  lemma {:induction false} FindActionAppend(actions: seq<StoredAction>, m: StoredAction, command: string)
    requires m.command !in CommandsOf(actions)
    ensures FindAction(actions + [m], command) == if command == m.command then Some(m) else FindAction(actions, command)
  {
    if |actions| == 0 {
      assert actions + [m] == [m];
    } else {
      assert (actions + [m])[1..] == actions[1..] + [m];
      assert CommandsOf(actions) == [actions[0].command] + CommandsOf(actions[1..]);
      FindActionAppend(actions[1..], m, command);
    }
  }

  /**
   * A second registration of the same command for the same process fails,
   * and the first registration is still the one found.
   */
  lemma FirstEntryKept(t: ActionTable, m: StoredAction, other: StoredAction)
    requires SetActionIn(t, m).Success?
    requires other.command == m.command && FormatProcessName(other.processName) == FormatProcessName(m.processName)
    ensures var t' := SetActionIn(t, m).value;
      && SetActionIn(t', other) == Failure(Thrown(AlreadyAddedMessage(m.command, other.processName)))
      && FindAction(ActionsIn(t', other.processName), m.command) == Some(m)
  {
    var t' := SetActionIn(t, m).value;
    var before := ActionsIn(t, m.processName);
    assert ActionsIn(t', other.processName) == before + [m];
    CommandsOfConcat(before, [m]);
    assert m.command in CommandsOf(before + [m]);
    FindActionAppend(before, m, m.command);
  }

  /**
   * Versions are separate namespaces: registering for one version leaves
   * another version's actions as they were, so the same command can be
   * registered once per version.
   */
  lemma VersionsIndependent(t: ActionTable, m: StoredAction, pn: ProcessName)
    requires pn.name == m.processName.name && pn.version != m.processName.version
    ensures FormatProcessName(pn) != FormatProcessName(m.processName)
    ensures SetActionIn(t, m).Success? ==> ActionsIn(SetActionIn(t, m).value, pn) == ActionsIn(t, pn)
  {
    var k1, k2 := FormatProcessName(pn), FormatProcessName(m.processName);
    assert k1[|pn.name| + 1..] == pn.version;
    assert k2[|pn.name| + 1..] == m.processName.version;
  }

  /** Keys are injective on names without an underscore. */
  lemma KeyInjectiveWithoutUnderscore(a: ProcessName, b: ProcessName)
    requires '_' !in a.name && '_' !in b.name
    requires FormatProcessName(a) == FormatProcessName(b)
    ensures a == b
  {
    var key := FormatProcessName(a);
    assert a.name == key[..|a.name|] == b.name;
  }

  /**
   * Keys are not injective: the processes `a_b`/`c` and `a`/`b_c` share the
   * key `a_b_c`, so an action of one is listed for the other and blocks the
   * same command there.
   */
  lemma KeysCollide()
    ensures var p, q := ProcessName("a_b", "c"), ProcessName("a", "b_c");
      var m := StoredAction("close", p, [], "CloseAction");
      var t := SetActionIn(ClearTable(), m);
      && p != q && FormatProcessName(p) == FormatProcessName(q)
      && t.Success?
      && ActionsIn(t.value, q) == [m]
      && SetActionIn(t.value, StoredAction("close", q, [], "OtherClose")).Failure?
  {
    var p, q := ProcessName("a_b", "c"), ProcessName("a", "b_c");
    assert p.name != q.name by {
      assert |p.name| == 3 && |q.name| == 1;
    }
    assert FormatProcessName(p) == "a_b_c" == FormatProcessName(q);
    var m := StoredAction("close", p, [], "CloseAction");
    assert CommandsOf([m]) == ["close"];
  }

  // ---- the step table (richer store only) ----

  function StatusesIn(t: StepTable): (ss: seq<string>)
    ensures |ss| == |t|
    ensures forall k :: 0 <= k < |t| ==> ss[k] == t[k].0
  {
    if |t| == 0 then [] else [t[0].0] + StatusesIn(t[1..])
  }

  /** `Map.get(status)`. */
  function LookupStep(t: StepTable, status: string): (r: Option<StoredStep>)
    ensures r.None? <==> status !in StatusesIn(t)
    ensures r.Some? ==> (status, r.value) in t
  {
    if |t| == 0 then None
    else if t[0].0 == status then Some(t[0].1)
    else
      assert StatusesIn(t) == [t[0].0] + StatusesIn(t[1..]);
      LookupStep(t[1..], status)
  }

  /**
   * `Map.set(status, metadata)`: a new status is appended, an existing one
   * keeps its place and takes the new value; every other status keeps its
   * value.
   */
  function PutStep(t: StepTable, status: string, meta: StoredStep): (r: StepTable) {
    if |t| == 0 then [(status, meta)]
    else if t[0].0 == status then [(status, meta)] + t[1..]
    else [t[0]] + PutStep(t[1..], status, meta)
  }

  /** The three facts a JavaScript `Map` promises of `set`. */
  lemma PutStepSpec(t: StepTable, status: string, meta: StoredStep)
    ensures LookupStep(PutStep(t, status, meta), status) == Some(meta)
    ensures forall s :: s != status ==> LookupStep(PutStep(t, status, meta), s) == LookupStep(t, s)
    ensures StatusesIn(PutStep(t, status, meta)) == if status in StatusesIn(t) then StatusesIn(t) else StatusesIn(t) + [status]
  {
    PutStepFinds(t, status, meta);
    forall s | s != status ensures LookupStep(PutStep(t, status, meta), s) == LookupStep(t, s) {
      PutStepKeepsOthers(t, status, meta, s);
    }
    PutStepStatuses(t, status, meta);
  }

  lemma {:induction false} PutStepFinds(t: StepTable, status: string, meta: StoredStep)
    ensures LookupStep(PutStep(t, status, meta), status) == Some(meta)
  {
    if |t| > 0 && t[0].0 != status {
      PutStepFinds(t[1..], status, meta);
    }
  }

  lemma {:induction false} PutStepKeepsOthers(t: StepTable, status: string, meta: StoredStep, s: string)
    requires s != status
    ensures LookupStep(PutStep(t, status, meta), s) == LookupStep(t, s)
  {
    var r := PutStep(t, status, meta);
    if |t| == 0 {
      assert r == [(status, meta)];
    } else if t[0].0 == status {
      assert r[0].0 != s && r[1..] == t[1..];
    } else {
      assert r[0] == t[0] && r[1..] == PutStep(t[1..], status, meta);
      PutStepKeepsOthers(t[1..], status, meta, s);
    }
  }

  lemma {:induction false} PutStepStatuses(t: StepTable, status: string, meta: StoredStep)
    ensures StatusesIn(PutStep(t, status, meta)) == if status in StatusesIn(t) then StatusesIn(t) else StatusesIn(t) + [status]
  {
    var r := PutStep(t, status, meta);
    if |t| > 0 {
      assert StatusesIn(t) == [t[0].0] + StatusesIn(t[1..]);
      assert StatusesIn(r) == [r[0].0] + StatusesIn(r[1..]);
      if t[0].0 == status {
        assert r[1..] == t[1..];
      } else {
        assert r[1..] == PutStep(t[1..], status, meta);
        PutStepStatuses(t[1..], status, meta);
      }
    }
  }

  // ---- the richer store ----

  datatype Store = Store(actions: ActionTable, steps: map<string, StepTable>)

  /** A new store: no actions, no steps. */
  function EmptyStore(): Store {
    Store(map[], map[])
  }

  /** Each process's commands and each process's statuses are distinct. */
  ghost predicate StoreInv(s: Store) {
    && TableInv(s.actions)
    && forall key :: key in s.steps ==> NoDups(StatusesIn(s.steps[key]))
  }

  /** `setActionMetadata` of the richer store: the simple store's rule on its action table. */
  function SetActionMetadata(s: Store, m: StoredAction): (r: Result<Store, Error>)
    ensures r.Success? <==> GetActionMetadata(s, m.command, m.processName).None?
    ensures r.Failure? ==> r.error == Thrown(AlreadyAddedMessage(m.command, m.processName))
    ensures r.Success? ==> r.value.steps == s.steps
    ensures r.Success? ==> ActionsIn(r.value.actions, m.processName) == ActionsIn(s.actions, m.processName) + [m]
    ensures r.Success? ==> forall pn :: FormatProcessName(pn) != FormatProcessName(m.processName) ==> ActionsIn(r.value.actions, pn) == ActionsIn(s.actions, pn)
    ensures StoreInv(s) && r.Success? ==> StoreInv(r.value)
  {
    var t :- SetActionIn(s.actions, m);
    assert StoreInv(s) ==> TableInv(t) by {
      if StoreInv(s) {
        SetActionKeepsInv(s.actions, m);
      }
    }
    Success(s.(actions := t))
  }

  /** `getActionMetadata(command, processName)`: the process's entry for the command, or null. */
  function GetActionMetadata(s: Store, command: string, pn: ProcessName): (r: Option<StoredAction>)
    ensures r.Some? <==> command in CommandsOf(ActionsIn(s.actions, pn))
    ensures r.Some? ==> r.value in ActionsIn(s.actions, pn) && r.value.command == command
  {
    FindAction(ActionsIn(s.actions, pn), command)
  }

  /**
   * After a registration, the command is found with the new entry under its
   * process's key, and every other lookup answers as before.
   */
  lemma GetAfterSetAction(s: Store, m: StoredAction, command: string, pn: ProcessName)
    requires SetActionMetadata(s, m).Success?
    ensures var s' := SetActionMetadata(s, m).value;
      GetActionMetadata(s', command, pn)
        == if command == m.command && FormatProcessName(pn) == FormatProcessName(m.processName) then Some(m)
           else GetActionMetadata(s, command, pn)
  {
    if FormatProcessName(pn) == FormatProcessName(m.processName) {
      FindActionAppend(ActionsIn(s.actions, m.processName), m, command);
    }
  }

  /** `getStepMetadata(status, processName)`: the step's entry, or null. */
  function GetStepMetadata(s: Store, status: string, pn: ProcessName): (r: Option<StoredStep>)
    ensures r.None? <==> status !in StatusesIn(GetStepsMetadata(s, pn))
    ensures r.Some? ==> (status, r.value) in GetStepsMetadata(s, pn)
  {
    var key := FormatProcessName(pn);
    if key in s.steps then LookupStep(s.steps[key], status) else None
  }

  /** `getStepsMetadata(processName)`: the process's `[status, metadata]` entries, or none. */
  function GetStepsMetadata(s: Store, pn: ProcessName): (r: StepTable)
    ensures FormatProcessName(pn) !in s.steps ==> r == []
    ensures StoreInv(s) ==> NoDups(StatusesIn(r))
    ensures forall st :: st in StatusesIn(r) ==> LookupStep(r, st).Some?
  {
    var key := FormatProcessName(pn);
    if key in s.steps then s.steps[key] else []
  }

  /** With distinct statuses, each listed entry is what `Map.get` answers for its status. */
  lemma {:induction false} LookupListed(t: StepTable, k: nat)
    requires NoDups(StatusesIn(t)) && k < |t|
    ensures LookupStep(t, t[k].0) == Some(t[k].1)
  {
    if k > 0 {
      assert StatusesIn(t)[0] != StatusesIn(t)[k];
      assert StatusesIn(t[1..]) == StatusesIn(t)[1..];
      assert t[1..][k - 1] == t[k];
      LookupListed(t[1..], k - 1);
    }
  }

  /**
   * The list and the lookup agree: in a well-formed store every entry that
   * `getStepsMetadata` lists is what `getStepMetadata` finds for its status.
   */
  lemma StepsListedAreFound(s: Store, pn: ProcessName)
    requires StoreInv(s)
    ensures forall k :: 0 <= k < |GetStepsMetadata(s, pn)| ==>
      GetStepMetadata(s, GetStepsMetadata(s, pn)[k].0, pn) == Some(GetStepsMetadata(s, pn)[k].1)
  {
    var t := GetStepsMetadata(s, pn);
    forall k | 0 <= k < |t| ensures GetStepMetadata(s, t[k].0, pn) == Some(t[k].1) {
      LookupListed(t, k);
    }
  }

  /**
   * `setStepMetadata` as written: the step map is (re)created when the
   * ACTION table has no entry for the process, and the step is then set
   * only if a step map exists.
   */
  function SetStepMetadataAsWritten(s: Store, status: string, pn: ProcessName, meta: StoredStep): (r: Store)
    ensures r.actions == s.actions
    ensures FormatProcessName(pn) in s.actions && FormatProcessName(pn) !in s.steps ==> r == s
    ensures FormatProcessName(pn) !in s.actions ==> GetStepsMetadata(r, pn) == [(status, meta)]
  {
    var key := FormatProcessName(pn);
    var s1 := if key !in s.actions then s.(steps := s.steps[key := []]) else s;
    if key in s1.steps then s1.(steps := s1.steps[key := PutStep(s1.steps[key], status, meta)]) else s1
  }

  /**
   * `setStepMetadata` as evidently intended: the step map is created when
   * the STEP table has no entry for the process. The step is then found,
   * and every other step of every process answers as before.
   */
  function SetStepMetadata(s: Store, status: string, pn: ProcessName, meta: StoredStep): (r: Store)
    ensures r.actions == s.actions
    ensures GetStepMetadata(r, status, pn) == Some(meta)
    ensures forall st, q :: st != status || FormatProcessName(q) != FormatProcessName(pn) ==> GetStepMetadata(r, st, q) == GetStepMetadata(s, st, q)
    ensures StoreInv(s) ==> StoreInv(r)
  {
    var key := FormatProcessName(pn);
    var table := if key in s.steps then s.steps[key] else [];
    var r := s.(steps := s.steps[key := PutStep(table, status, meta)]);
    PutStepSpec(table, status, meta);
    PutStepKeepsInv(s, key, table, status, meta);
    r
  }

  /**
   * What `getStepsMetadata` lists after a (intended) `setStepMetadata`: the
   * process's statuses in insertion order, the new one last if it is new;
   * every other process's list is untouched.
   */
  lemma StepsAfterSet(s: Store, status: string, pn: ProcessName, meta: StoredStep)
    ensures var before := StatusesIn(GetStepsMetadata(s, pn));
      StatusesIn(GetStepsMetadata(SetStepMetadata(s, status, pn, meta), pn))
        == if status in before then before else before + [status]
    ensures forall q :: FormatProcessName(q) != FormatProcessName(pn) ==>
      GetStepsMetadata(SetStepMetadata(s, status, pn, meta), q) == GetStepsMetadata(s, q)
  {
    var table := GetStepsMetadata(s, pn);
    var r := SetStepMetadata(s, status, pn, meta);
    assert r.steps == s.steps[FormatProcessName(pn) := PutStep(table, status, meta)];
    assert GetStepsMetadata(r, pn) == PutStep(table, status, meta);
    PutStepStatuses(table, status, meta);
  }

  /** Setting a step keeps every process's statuses distinct. */
  lemma PutStepKeepsInv(s: Store, key: string, table: StepTable, status: string, meta: StoredStep)
    requires table == if key in s.steps then s.steps[key] else []
    ensures StoreInv(s) ==> StoreInv(s.(steps := s.steps[key := PutStep(table, status, meta)]))
  {
    if StoreInv(s) {
      var t := PutStep(table, status, meta);
      assert NoDups(StatusesIn(t)) by {
        assert NoDups(StatusesIn(table));
        PutStepStatuses(table, status, meta);
        if status !in StatusesIn(table) {
          NoDupsConcat(StatusesIn(table), [status]);
        }
      }
      var steps := s.steps[key := t];
      forall k | k in steps ensures NoDups(StatusesIn(steps[k])) {
        if k != key {
          assert steps[k] == s.steps[k];
        }
      }
    }
  }

  /**
   * The two agree exactly when the process has both an action entry and a
   * step entry, or neither: then the line-90 test and the intended test
   * give the same answer.
   */
  lemma AsWrittenAgreesWhenTablesMatch(s: Store, status: string, pn: ProcessName, meta: StoredStep)
    requires FormatProcessName(pn) in s.actions <==> FormatProcessName(pn) in s.steps
    ensures SetStepMetadataAsWritten(s, status, pn, meta) == SetStepMetadata(s, status, pn, meta)
  {
  }

  /**
   * With no action registered for the process, each `setStepMetadata` call
   * replaces the step map: after setting `new` and then `closed`, `new` is
   * gone, while the intended rule keeps both.
   */
  lemma StepsResetWithoutActions(pn: ProcessName, a: StoredStep, b: StoredStep)
    ensures var s1 := SetStepMetadataAsWritten(EmptyStore(), "new", pn, a);
      var s2 := SetStepMetadataAsWritten(s1, "closed", pn, b);
      GetStepMetadata(s2, "new", pn) == None
    ensures var s1 := SetStepMetadata(EmptyStore(), "new", pn, a);
      var s2 := SetStepMetadata(s1, "closed", pn, b);
      GetStepMetadata(s2, "new", pn) == Some(a) && GetStepMetadata(s2, "closed", pn) == Some(b)
  {
    var s1 := SetStepMetadataAsWritten(EmptyStore(), "new", pn, a);
    var s2 := SetStepMetadataAsWritten(s1, "closed", pn, b);
    assert GetStepsMetadata(s2, pn) == [("closed", b)];
    assert "new" != "closed" by {
      assert |"new"| == 3 && |"closed"| == 6;
    }
    assert StatusesIn(GetStepsMetadata(s2, pn)) == ["closed"];
  }

  /**
   * With an action registered for the process and no step map yet, the
   * step is dropped, while the intended rule records it.
   */
  lemma StepDroppedWithActions(s: Store, m: StoredAction, status: string, meta: StoredStep)
    requires FormatProcessName(m.processName) !in s.steps
    requires SetActionMetadata(s, m).Success?
    ensures var s1 := SetActionMetadata(s, m).value;
      && GetStepMetadata(SetStepMetadataAsWritten(s1, status, m.processName, meta), status, m.processName) == None
      && GetStepMetadata(SetStepMetadata(s1, status, m.processName, meta), status, m.processName) == Some(meta)
  {
    var s1 := SetActionMetadata(s, m).value;
    assert FormatProcessName(m.processName) in s1.actions;
  }

  /** `clear()`: both tables emptied. */
  function Clear(s: Store): (r: Store)
    ensures StoreInv(r)
    ensures forall pn :: ActionsIn(r.actions, pn) == [] && GetStepsMetadata(r, pn) == []
    ensures forall pn, command :: GetActionMetadata(r, command, pn) == None
    ensures forall pn, status :: GetStepMetadata(r, status, pn) == None
  {
    EmptyStore()
  }

  // ---- the global slot ----

  /**
   * `getGlobalStore()`: the store in the global slot, created empty on
   * first use; the slot then holds the store returned.
   */
  function GetGlobalStore(slot: Option<Store>): (r: (Option<Store>, Store))
    ensures r.0 == Some(r.1)
    ensures slot.Some? ==> r.1 == slot.value
    ensures slot.None? ==> forall pn :: ActionsIn(r.1.actions, pn) == [] && GetStepsMetadata(r.1, pn) == []
  {
    if slot.Some? then (slot, slot.value) else (Some(EmptyStore()), EmptyStore())
  }

  /** Every call after the first returns the same store and leaves the slot alone. */
  lemma GlobalStoreShared(slot: Option<Store>)
    ensures var (slot1, s1) := GetGlobalStore(slot);
      GetGlobalStore(slot1) == (slot1, s1)
  {
  }

  // ---- the decorators ----

  /**
   * `@Action({command, processName, relations})`: records the class with
   * `relations ?? []`; a command already stored for the process throws.
   */
  function ActionDecorator(s: Store, target: ClassId, command: string, pn: ProcessName, relations: Option<seq<(string, string)>>): (r: Result<Store, Error>)
    ensures r.Success? <==> GetActionMetadata(s, command, pn).None?
    ensures r.Failure? ==> r.error == Thrown(AlreadyAddedMessage(command, pn))
    ensures r.Success? ==> GetActionMetadata(r.value, command, pn) == Some(StoredAction(command, pn, if relations.Some? then relations.value else [], target))
    ensures r.Success? ==> ActionsIn(r.value.actions, pn) == ActionsIn(s.actions, pn) + [StoredAction(command, pn, if relations.Some? then relations.value else [], target)]
  {
    var m := StoredAction(command, pn, if relations.Some? then relations.value else [], target);
    var r := SetActionMetadata(s, m);
    if r.Success? then
      GetAfterSetAction(s, m, command, pn);
      r
    else r
  }

  /**
   * `@InitialAction({processName})`: records the class under
   * `INITIAL_ACTION_COMMAND` with no relations, unless the process already
   * has an initial action, in which case it throws naming that class.
   */
  function InitialActionDecorator(s: Store, target: ClassId, pn: ProcessName): (r: Result<Store, Error>)
    ensures var existing := GetActionMetadata(s, InitialActionCommand, pn);
      && (existing.Some? ==> r == Failure(Thrown(InitialExistsMessage(existing.value.actionType))))
      && (existing.None? ==> r.Success? && GetActionMetadata(r.value, InitialActionCommand, pn) == Some(StoredAction(InitialActionCommand, pn, [], target)))
    ensures r.Success? ==> ActionsIn(r.value.actions, pn) == ActionsIn(s.actions, pn) + [StoredAction(InitialActionCommand, pn, [], target)]
  {
    var existing := GetActionMetadata(s, InitialActionCommand, pn);
    if existing.Some? then Failure(Thrown(InitialExistsMessage(existing.value.actionType)))
    else
      var m := StoredAction(InitialActionCommand, pn, [], target);
      GetAfterSetAction(s, m, InitialActionCommand, pn);
      SetActionMetadata(s, m)
  }

  /** A second `@InitialAction` for the same process throws, naming the first class. */
  lemma SecondInitialActionFails(s: Store, first: ClassId, second: ClassId, pn: ProcessName)
    requires InitialActionDecorator(s, first, pn).Success?
    ensures InitialActionDecorator(InitialActionDecorator(s, first, pn).value, second, pn)
      == Failure(Thrown(InitialExistsMessage(first)))
  {
  }
}
